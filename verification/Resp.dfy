/** The request side of RESP2: the incremental command parser and the command encoder of src/resp.cpp. */
module Resp {
  import opened Text
  import Tokenizer

  const MAX_ARGUMENTS: nat := 1024 * 1024
  const MAX_BULK_SIZE: nat := 512 * 1024 * 1024
  const MAX_INLINE_SIZE: nat := 64 * 1024

  const CRLF: string := "\r\n"

  type Command = seq<string>

  datatype ProtocolError =
    | InvalidArrayLength
    | ExpectedBulkString
    | InvalidBulkLength
    | MissingCrlf
    | InlineTooBig
    | UnbalancedQuotes

  /** The text the source attaches to each error. */
  function Describe(error: ProtocolError): string {
    match error
    case InvalidArrayLength => "Invalid array length"
    case ExpectedBulkString => "Expected RESP bulk string"
    case InvalidBulkLength => "Invalid bulk string length"
    case MissingCrlf => "Bulk string missing CRLF"
    case InlineTooBig => "Protocol error: too big inline request"
    case UnbalancedQuotes => "Protocol error: unbalanced quotes in request"
  }

  datatype ParseResult =
    | Complete(arguments: Command, consumed: nat)
    | Incomplete
    | Error(error: ProtocolError)

  // ---------------------------------------------------------------
  // Searching
  // ---------------------------------------------------------------

  predicate CrlfAt(b: string, i: int) {
    0 <= i && i + 1 < |b| && b[i] == '\r' && b[i + 1] == '\n'
  }

  /** `buffer.find("\r\n", from)`. */
  function FindCrlf(b: string, from: nat): (r: Option<nat>)
    ensures r.Some? ==> from <= r.value && CrlfAt(b, r.value) && forall i :: from <= i < r.value ==> !CrlfAt(b, i)
    ensures r.None? ==> forall i :: from <= i ==> !CrlfAt(b, i)
    decreases |b| - from
  {
    if from + 1 >= |b| then None
    else if CrlfAt(b, from) then Some(from)
    else FindCrlf(b, from + 1)
  }

  /** `buffer.find('\n')`, searching from `from`. */
  function FindNewline(b: string, from: nat): (r: Option<nat>)
    ensures r.Some? ==> from <= r.value < |b| && b[r.value] == '\n' && forall i :: from <= i < r.value ==> b[i] != '\n'
    ensures r.None? ==> forall i :: from <= i < |b| ==> b[i] != '\n'
    decreases |b| - from
  {
    if from >= |b| then None
    else if b[from] == '\n' then Some(from)
    else FindNewline(b, from + 1)
  }

  // ---------------------------------------------------------------
  // Parsing
  // ---------------------------------------------------------------

  datatype BulkResult = Bulk(value: string, next: nat) | NeedMore | Malformed(error: ProtocolError)

  /** One bulk string of a command array, starting at `pos`. */
  function ReadBulk(b: string, pos: nat): (r: BulkResult)
    ensures r.Bulk? ==> pos < r.next <= |b|
  {
    if pos >= |b| then NeedMore
    else if b[pos] != '$' then Malformed(ExpectedBulkString)
    else
      match FindCrlf(b, pos + 1)
      case None => NeedMore
      case Some(lengthEnd) =>
        match ParseInteger(b[pos + 1..lengthEnd])
        case None => Malformed(InvalidBulkLength)
        case Some(length) =>
          if length < 0 || length > MAX_BULK_SIZE then Malformed(InvalidBulkLength)
          else BulkBody(b, lengthEnd + 2, length)
  }

  /** The payload of a bulk string and the CRLF after it. */
  function BulkBody(b: string, dataStart: nat, length: nat): (r: BulkResult)
    requires dataStart <= |b|
    ensures r.Bulk? ==> r.next == dataStart + length + 2 <= |b|
  {
    var dataEnd := dataStart + length;
    if dataEnd + 2 > |b| then NeedMore
    else if !CrlfAt(b, dataEnd) then Malformed(MissingCrlf)
    else Bulk(b[dataStart..dataEnd], dataEnd + 2)
  }

  function Push(value: string, rest: ParseResult): ParseResult {
    match rest
    case Complete(arguments, consumed) => Complete([value] + arguments, consumed)
    case _ => rest
  }

  /** `count` bulk strings from `pos` on; `consumed` is the absolute end position. */
  function ReadBulks(b: string, pos: nat, count: nat): (r: ParseResult)
    requires pos <= |b|
    ensures r.Complete? ==> pos <= r.consumed <= |b| && |r.arguments| == count
    decreases count
  {
    if count == 0 then Complete([], pos)
    else
      match ReadBulk(b, pos)
      case NeedMore => Incomplete
      case Malformed(error) => Error(error)
      case Bulk(value, next) => Push(value, ReadBulks(b, next, count - 1))
  }

  function ParseArray(b: string): (r: ParseResult)
    requires b != "" && b[0] == '*'
    ensures r.Complete? ==> 0 < r.consumed <= |b|
  {
    match FindCrlf(b, 1)
    case None => Incomplete
    case Some(countEnd) =>
      match ParseInteger(b[1..countEnd])
      case None => Error(InvalidArrayLength)
      case Some(count) =>
        if count < 0 || count > MAX_ARGUMENTS then Error(InvalidArrayLength)
        else ReadBulks(b, countEnd + 2, count)
  }

  function ParseInline(b: string): (r: ParseResult)
    ensures r.Complete? ==> 0 < r.consumed <= |b|
  {
    match FindNewline(b, 0)
    case None =>
      if |b| > MAX_INLINE_SIZE then Error(InlineTooBig) else Incomplete
    case Some(lineEnd) =>
      match Tokenizer.Tokenize(b[..lineEnd])
      case None => Error(UnbalancedQuotes)
      case Some(arguments) => Complete(arguments, lineEnd + 1)
  }

  function Parse(b: string): (r: ParseResult)
    ensures r.Complete? ==> 0 < r.consumed <= |b|
  {
    if b == "" then Incomplete
    else if b[0] != '*' then ParseInline(b)
    else ParseArray(b)
  }

  function Prepend(arguments: Command, rest: ParseResult): ParseResult {
    match rest
    case Complete(more, consumed) => Complete(arguments + more, consumed)
    case _ => rest
  }

  lemma PrependPush(arguments: Command, value: string, rest: ParseResult)
    ensures Prepend(arguments, Push(value, rest)) == Prepend(arguments + [value], rest)
    ensures Prepend([], rest) == rest
  {
    if rest.Complete? {
      assert arguments + ([value] + rest.arguments) == arguments + [value] + rest.arguments;
      assert [] + rest.arguments == rest.arguments;
    }
  }

  /** The body of the parser's loop: one bulk string, in the order the source checks it. */
  method ReadBulkString(buffer: string, position: nat) returns (r: BulkResult)
    ensures r == ReadBulk(buffer, position)
  {
    hide ParseInteger, FindCrlf;
    if position >= |buffer| {
      return NeedMore;
    }
    if buffer[position] != '$' {
      return Malformed(ExpectedBulkString);
    }
    var lengthEnd := FindCrlf(buffer, position + 1);
    if lengthEnd.None? {
      return NeedMore;
    }
    var length := ParseInteger(buffer[position + 1..lengthEnd.value]);
    if length.None? || length.value < 0 || length.value > MAX_BULK_SIZE {
      return Malformed(InvalidBulkLength);
    }
    var dataStart := lengthEnd.value + 2;
    if dataStart > |buffer| || length.value > |buffer| - dataStart {
      return NeedMore;
    }
    var dataEnd := dataStart + length.value;
    if |buffer| - dataEnd < 2 {
      return NeedMore;
    }
    if !CrlfAt(buffer, dataEnd) {
      return Malformed(MissingCrlf);
    }
    return Bulk(buffer[dataStart..dataEnd], dataEnd + 2);
  }

  /** An inline command: everything up to the first newline, or a line that has become too long. */
  method ParseInlineCommand(buffer: string) returns (result: ParseResult)
    ensures result == ParseInline(buffer)
  {
    hide Tokenizer.Tokenize;
    var lineEnd := FindNewline(buffer, 0);
    if lineEnd.None? {
      return if |buffer| > MAX_INLINE_SIZE then Error(InlineTooBig) else Incomplete;
    }
    var arguments := Tokenizer.TokenizeCommandLine(buffer[..lineEnd.value]);
    return if arguments.None? then Error(UnbalancedQuotes) else Complete(arguments.value, lineEnd.value + 1);
  }

  /** The source's parser: one pass over the buffer, moving `position` past each bulk string. */
  method ParseRespCommand(buffer: string) returns (result: ParseResult)
    ensures result == Parse(buffer)
  {
    hide ParseInteger, FindCrlf, ReadBulk;
    if buffer == "" {
      return Incomplete;
    }
    if buffer[0] != '*' {
      result := ParseInlineCommand(buffer);
      return;
    }
    var countEnd := FindCrlf(buffer, 1);
    if countEnd.None? {
      return Incomplete;
    }
    var parsed := ParseInteger(buffer[1..countEnd.value]);
    if parsed.None? || parsed.value < 0 || parsed.value > MAX_ARGUMENTS {
      return Error(InvalidArrayLength);
    }
    result := ReadArguments(buffer, countEnd.value + 2, parsed.value);
  }

  method ReadArguments(buffer: string, start: nat, count: nat) returns (result: ParseResult)
    requires start <= |buffer|
    ensures result == ReadBulks(buffer, start, count)
  {
    hide ReadBulk;
    var position: nat := start;
    var arguments: Command := [];
    PrependPush([], "", ReadBulks(buffer, position, count));
    for index := 0 to count
      invariant position <= |buffer|
      invariant Prepend(arguments, ReadBulks(buffer, position, count - index)) == ReadBulks(buffer, start, count)
    {
      var bulk := ReadBulkString(buffer, position);
      match bulk
      case NeedMore => return Incomplete;
      case Malformed(error) => return Error(error);
      case Bulk(value, next) =>
        PrependPush(arguments, value, ReadBulks(buffer, next, count - index - 1));
        arguments := arguments + [value];
        position := next;
    }
    assert arguments + [] == arguments;
    return Complete(arguments, position);
  }

  // ---------------------------------------------------------------
  // Stability: what more input can change
  // ---------------------------------------------------------------

  lemma FindCrlfStable(b: string, more: string, from: nat)
    requires b <= more
    requires FindCrlf(b, from).Some?
    ensures FindCrlf(more, from) == FindCrlf(b, from)
  {
    var i := FindCrlf(b, from).value;
    assert CrlfAt(more, i);
    assert forall j :: from <= j < i ==> CrlfAt(more, j) == CrlfAt(b, j);
  }

  lemma ReadBulkStable(b: string, more: string, pos: nat)
    requires b <= more
    requires !ReadBulk(b, pos).NeedMore?
    ensures ReadBulk(more, pos) == ReadBulk(b, pos)
  {
    if b[pos] == '$' {
      FindCrlfStable(b, more, pos + 1);
      var lengthEnd := FindCrlf(b, pos + 1).value;
      assert more[pos + 1..lengthEnd] == b[pos + 1..lengthEnd];
      var length := ParseInteger(b[pos + 1..lengthEnd]);
      if length.Some? && 0 <= length.value <= MAX_BULK_SIZE {
        var dataStart := lengthEnd + 2;
        assert more[dataStart..dataStart + length.value] == b[dataStart..dataStart + length.value];
      }
    }
  }

  lemma {:induction false} ReadBulksStable(b: string, more: string, pos: nat, count: nat)
    requires b <= more && pos <= |b|
    requires !ReadBulks(b, pos, count).Incomplete?
    ensures ReadBulks(more, pos, count) == ReadBulks(b, pos, count)
    decreases count
  {
    hide ParseInteger, ReadBulk;
    if count > 0 {
      ReadBulkStable(b, more, pos);
      var r := ReadBulk(b, pos);
      if r.Bulk? {
        ReadBulksStable(b, more, r.next, count - 1);
      }
    }
  }

  /** A decided array command, complete or malformed, is decided for good. */
  lemma ArrayStable(b: string, more: string)
    requires b != "" && b[0] == '*' && b <= more
    requires !ParseArray(b).Incomplete?
    ensures ParseArray(more) == ParseArray(b)
  {
    FindCrlfStable(b, more, 1);
    var countEnd := FindCrlf(b, 1).value;
    assert more[1..countEnd] == b[1..countEnd];
    var count := ParseInteger(b[1..countEnd]);
    if count.Some? && 0 <= count.value <= MAX_ARGUMENTS {
      ReadBulksStable(b, more, countEnd + 2, count.value);
    }
  }

  /** A line that has its newline is decided by that line alone. */
  lemma InlineStable(b: string, more: string)
    requires b <= more
    requires FindNewline(b, 0).Some?
    ensures ParseInline(more) == ParseInline(b)
  {
    var lineEnd := FindNewline(b, 0).value;
    assert more[lineEnd] == '\n';
    assert FindNewline(more, 0) == Some(lineEnd);
    assert more[..lineEnd] == b[..lineEnd];
  }

  /** A pending inline line that is already too long to be accepted. */
  predicate Oversized(b: string) {
    b != "" && b[0] != '*' && FindNewline(b, 0).None? && |b| > MAX_INLINE_SIZE
  }

  /**
   * Appending bytes never changes a decided result. The one exception is the inline size
   * limit, which is applied to whatever happens to be buffered.
   */
  lemma ParseStable(b: string, more: string)
    requires b <= more
    requires !Parse(b).Incomplete? && !Oversized(b)
    ensures Parse(more) == Parse(b)
  {
    assert more[0] == b[0];
    if b[0] == '*' {
      ArrayStable(b, more);
    } else {
      InlineStable(b, more);
    }
  }

  /** A complete command is what it is whatever follows it. */
  lemma CompleteStable(b: string, rest: string)
    requires Parse(b).Complete?
    ensures Parse(b + rest) == Parse(b)
  {
    ParseStable(b, b + rest);
  }

  lemma FindCrlfPrefix(b: string, p: nat, from: nat)
    requires p <= |b| && FindCrlf(b, from).Some? && FindCrlf(b, from).value + 2 <= p
    ensures FindCrlf(b[..p], from) == FindCrlf(b, from)
  {
    var i := FindCrlf(b, from).value;
    assert CrlfAt(b[..p], i);
    assert forall j :: from <= j < i ==> CrlfAt(b[..p], j) == CrlfAt(b, j);
  }

  lemma ReadBulkPrefix(b: string, p: nat, pos: nat)
    requires p <= |b| && ReadBulk(b, pos).Bulk? && ReadBulk(b, pos).next <= p
    ensures ReadBulk(b[..p], pos) == ReadBulk(b, pos)
  {
    hide ParseInteger, FindCrlf;
    FindCrlfPrefix(b, p, pos + 1);
    var lengthEnd := FindCrlf(b, pos + 1).value;
    assert b[..p][pos + 1..lengthEnd] == b[pos + 1..lengthEnd];
    var dataStart := lengthEnd + 2;
    var length := ParseInteger(b[pos + 1..lengthEnd]).value;
    assert b[..p][dataStart..dataStart + length] == b[dataStart..dataStart + length];
  }

  lemma {:induction false} ReadBulksPrefix(b: string, p: nat, pos: nat, count: nat)
    requires pos <= p <= |b| && ReadBulks(b, pos, count).Complete? && ReadBulks(b, pos, count).consumed <= p
    ensures ReadBulks(b[..p], pos, count) == ReadBulks(b, pos, count)
    decreases count
  {
    hide ParseInteger, ReadBulk;
    if count > 0 {
      ReadBulkPrefix(b, p, pos);
      ReadBulksPrefix(b, p, ReadBulk(b, pos).next, count - 1);
    }
  }

  /** A complete command is recognised as soon as its own bytes are there. */
  lemma WholeCommandSuffices(b: string, p: nat)
    requires Parse(b).Complete? && Parse(b).consumed <= p <= |b|
    ensures Parse(b[..p]) == Parse(b)
  {
    if b[0] == '*' {
      var countEnd := FindCrlf(b, 1).value;
      var count := ParseInteger(b[1..countEnd]).value;
      FindCrlfPrefix(b, p, 1);
      assert b[..p][1..countEnd] == b[1..countEnd];
      ReadBulksPrefix(b, p, countEnd + 2, count);
    } else {
      var lineEnd := FindNewline(b, 0).value;
      assert b[..p][lineEnd] == '\n';
      assert b[..p] <= b;
      InlineStable(b[..p], b);
    }
  }

  /** The parser asks for more input on every proper prefix of a command array. */
  lemma ArrayPrefixIncomplete(b: string, p: nat)
    requires b != "" && b[0] == '*'
    requires Parse(b).Complete? && p < Parse(b).consumed
    ensures Parse(b[..p]).Incomplete?
  {
    if !Parse(b[..p]).Incomplete? {
      ParseStable(b[..p], b);
    }
  }

  /** The same for inline commands, while the prefix is within the inline limit. */
  lemma InlinePrefixIncomplete(b: string, p: nat)
    requires b != "" && b[0] != '*'
    requires Parse(b).Complete? && p < Parse(b).consumed && p <= MAX_INLINE_SIZE
    ensures Parse(b[..p]).Incomplete?
  {
    if !Parse(b[..p]).Incomplete? {
      ParseStable(b[..p], b);
    }
  }

  // ---------------------------------------------------------------
  // Encoding
  // ---------------------------------------------------------------

  function EncodeBulk(value: string): string {
    "$" + NatToText(|value|) + CRLF + value + CRLF
  }

  function EncodeBulks(values: Command): string {
    if values == [] then "" else EncodeBulk(values[0]) + EncodeBulks(values[1..])
  }

  function EncodeCommand(arguments: Command): (s: string)
    ensures s != "" && s[0] == '*'
  {
    "*" + NatToText(|arguments|) + CRLF + EncodeBulks(arguments)
  }

  lemma {:induction false} EncodeBulksAppend(a: Command, b: Command)
    ensures EncodeBulks(a + b) == EncodeBulks(a) + EncodeBulks(b)
  {
    if a == [] {
      assert a + b == b;
    } else {
      assert (a + b)[1..] == a[1..] + b;
      EncodeBulksAppend(a[1..], b);
    }
  }

  lemma EncodeBulksOne(v: string)
    ensures EncodeBulks([v]) == EncodeBulk(v)
  {
    assert [v][1..] == [];
    assert EncodeBulk(v) + "" == EncodeBulk(v);
  }

  /** `respArray`: the source appends one bulk string after the other. */
  method RespArray(arguments: Command) returns (encoded: string)
    ensures encoded == EncodeCommand(arguments)
  {
    var header := "*" + NatToText(|arguments|) + CRLF;
    encoded := header;
    for i := 0 to |arguments|
      invariant encoded == header + EncodeBulks(arguments[..i])
    {
      assert arguments[..i + 1] == arguments[..i] + [arguments[i]];
      EncodeBulksAppend(arguments[..i], [arguments[i]]);
      EncodeBulksOne(arguments[i]);
      encoded := encoded + EncodeBulk(arguments[i]);
    }
    assert arguments[..|arguments|] == arguments;
  }

  /** What the parser accepts: the limits of the protocol. */
  predicate WithinLimits(arguments: Command) {
    |arguments| <= MAX_ARGUMENTS && forall i :: 0 <= i < |arguments| ==> |arguments[i]| <= MAX_BULK_SIZE
  }

  lemma ReadBulkFits(b: string, pos: nat)
    requires ReadBulk(b, pos).Bulk?
    ensures |ReadBulk(b, pos).value| <= MAX_BULK_SIZE
  {
    hide ParseInteger, FindCrlf;
  }

  lemma {:induction false} ReadBulksFit(b: string, pos: nat, count: nat)
    requires pos <= |b| && ReadBulks(b, pos, count).Complete?
    ensures forall i :: 0 <= i < count ==> |ReadBulks(b, pos, count).arguments[i]| <= MAX_BULK_SIZE
    decreases count
  {
    hide ReadBulk;
    if count > 0 {
      ReadBulkFits(b, pos);
      ReadBulksFit(b, ReadBulk(b, pos).next, count - 1);
    }
  }

  lemma ArrayFits(b: string)
    requires b != "" && b[0] == '*' && ParseArray(b).Complete?
    ensures WithinLimits(ParseArray(b).arguments)
  {
    hide ParseInteger, FindCrlf, ReadBulks;
    var countEnd := FindCrlf(b, 1).value;
    var count := ParseInteger(b[1..countEnd]).value;
    ReadBulksFit(b, countEnd + 2, count);
  }

  lemma InlineFits(b: string)
    requires |b| <= MAX_ARGUMENTS && ParseInline(b).Complete?
    ensures WithinLimits(ParseInline(b).arguments)
  {
    hide Tokenizer.TokenizeFrom;
    var line := b[..FindNewline(b, 0).value];
    Tokenizer.TokensFit(line, 0);
  }

  /** The most bytes that one event reads from a connection: 16 reads of 16 KiB. */
  const READ_LIMIT: nat := 16 * (16 * 1024)

  /**
   * Commands that a connection can deliver are within the limits. `arrived` bytes of the
   * buffer have just arrived, and those before them were not a complete command.
   */
  lemma DeliveredWithinLimits(b: string, arrived: nat)
    requires arrived <= |b| && arrived <= READ_LIMIT && Parse(b[..|b| - arrived]).Incomplete?
    requires Parse(b).Complete?
    ensures WithinLimits(Parse(b).arguments) && Parse(b).consumed > |b| - arrived
  {
    hide ParseArray, ParseInline, WithinLimits;
    var kept := b[..|b| - arrived];
    if Parse(b).consumed <= |kept| {
      WholeCommandSuffices(b, |kept|);
      assert false;
    }
    if b[0] == '*' {
      ArrayFits(b);
    } else {
      KeptInlineIsShort(kept);
      assert kept != "" ==> kept[0] == b[0];
      InlineFits(b);
    }
  }

  lemma KeptInlineIsShort(kept: string)
    requires Parse(kept).Incomplete? && (kept != "" ==> kept[0] != '*')
    ensures |kept| <= MAX_INLINE_SIZE
  {
    hide Tokenizer.Tokenize;
  }

  /** A number line at `pos`: the line search stops at its CRLF and the number reads back. */
  lemma NumberLine(b: string, pos: nat, n: nat)
    requires n <= MAX_BULK_SIZE
    requires At(b, pos, NatToText(n) + CRLF)
    ensures FindCrlf(b, pos) == Some(pos + |NatToText(n)|)
    ensures ParseInteger(b[pos..pos + |NatToText(n)|]) == Some(n)
  {
    var digits := NatToText(n);
    AtSplit(b, pos, digits, CRLF);
    assert b[pos + |digits|] == CRLF[0] && b[pos + |digits| + 1] == CRLF[1];
    assert CrlfAt(b, pos + |digits|);
    forall i | pos <= i < pos + |digits| ensures !CrlfAt(b, i) {
      assert b[pos + (i - pos)] == digits[i - pos];
    }
    assert b[pos..pos + |digits|] == digits;
    IntegerRoundTrip(n);
  }

  lemma EncodedBulkAt(b: string, pos: nat, v: string)
    requires At(b, pos, EncodeBulk(v))
    ensures var number := NatToText(|v|) + CRLF;
            && |EncodeBulk(v)| == 1 + |number| + |v| + 2
            && pos < |b| && b[pos] == '$'
            && At(b, pos + 1, number)
            && At(b, pos + 1 + |number|, v + CRLF)
  {
    var number := NatToText(|v|) + CRLF;
    assert EncodeBulk(v) == "$" + (number + (v + CRLF));
    AtSplit(b, pos, "$", number + (v + CRLF));
    AtFirst(b, pos, "$");
    AtSplit(b, pos + 1, number, v + CRLF);
  }

  lemma ReadEncodedBody(b: string, pos: nat, v: string)
    requires At(b, pos, v + CRLF)
    ensures pos <= |b| && BulkBody(b, pos, |v|) == Bulk(v, pos + |v| + 2)
  {
    AtSplit(b, pos, v, CRLF);
    assert b[pos + |v|] == CRLF[0] && b[pos + |v| + 1] == CRLF[1];
    assert b[pos..pos + |v|] == v;
  }

  lemma ReadEncodedBulk(b: string, pos: nat, v: string)
    requires |v| <= MAX_BULK_SIZE
    requires At(b, pos, EncodeBulk(v))
    ensures ReadBulk(b, pos) == Bulk(v, pos + |EncodeBulk(v)|)
  {
    var number := NatToText(|v|) + CRLF;
    EncodedBulkAt(b, pos, v);
    NumberLine(b, pos + 1, |v|);
    ReadEncodedBody(b, pos + 1 + |number|, v);
  }

  lemma {:induction false} ReadEncodedBulks(b: string, pos: nat, values: Command)
    requires forall i :: 0 <= i < |values| ==> |values[i]| <= MAX_BULK_SIZE
    requires At(b, pos, EncodeBulks(values))
    ensures ReadBulks(b, pos, |values|) == Complete(values, pos + |EncodeBulks(values)|)
    decreases |values|
  {
    hide At, ParseInteger, ReadBulk, EncodeBulk;
    if values == [] {
      AtFits(b, pos, "");
    } else {
      var first, rest := EncodeBulk(values[0]), EncodeBulks(values[1..]);
      AtSplit(b, pos, first, rest);
      AtFits(b, pos, first + rest);
      ReadEncodedBulk(b, pos, values[0]);
      ReadEncodedBulks(b, pos + |first|, values[1..]);
      assert [values[0]] + values[1..] == values;
    }
  }

  lemma EncodedCommandAt(b: string, arguments: Command)
    requires At(b, 0, EncodeCommand(arguments))
    ensures var number := NatToText(|arguments|) + CRLF;
            && |EncodeCommand(arguments)| == 1 + |number| + |EncodeBulks(arguments)|
            && b != "" && b[0] == '*'
            && At(b, 1, number)
            && At(b, 1 + |number|, EncodeBulks(arguments))
  {
    hide At, NatToText, EncodeBulks;
    var number, bulks := NatToText(|arguments|) + CRLF, EncodeBulks(arguments);
    assert EncodeCommand(arguments) == "*" + (number + bulks);
    AtSplit(b, 0, "*", number + bulks);
    AtFirst(b, 0, "*");
    AtSplit(b, 1, number, bulks);
  }

  lemma ReadEncodedCommand(b: string, arguments: Command)
    requires WithinLimits(arguments)
    requires At(b, 0, EncodeCommand(arguments))
    ensures Parse(b) == Complete(arguments, |EncodeCommand(arguments)|)
  {
    hide At, ParseInteger, EncodeBulks, EncodeCommand, FindCrlf;
    var number := NatToText(|arguments|) + CRLF;
    EncodedCommandAt(b, arguments);
    NumberLine(b, 1, |arguments|);
    ReadEncodedBulks(b, 1 + |number|, arguments);
  }

  /** Parsing an encoded command gives back its arguments, whatever bytes they hold and whatever follows. */
  lemma CommandRoundTrip(arguments: Command, rest: string)
    requires WithinLimits(arguments)
    ensures Parse(EncodeCommand(arguments) + rest) == Complete(arguments, |EncodeCommand(arguments)|)
  {
    ReadEncodedCommand(EncodeCommand(arguments) + rest, arguments);
  }

  /** Every proper prefix of an encoded command is incomplete, never an error. */
  lemma EncodedPrefixIncomplete(arguments: Command, p: nat)
    requires WithinLimits(arguments)
    requires p < |EncodeCommand(arguments)|
    ensures Parse(EncodeCommand(arguments)[..p]).Incomplete?
  {
    var e := EncodeCommand(arguments);
    CommandRoundTrip(arguments, "");
    assert e + "" == e;
    ArrayPrefixIncomplete(e, p);
  }

  /** A list of quoted values, ended by CRLF, is an inline command with exactly those arguments. */
  lemma QuotedLineParses(values: seq<string>)
    requires forall v <- values :: Tokenizer.IsBytes(v)
    ensures var line := Tokenizer.JoinQuoted(values) + CRLF;
            Parse(line) == Complete(values, |line|)
  {
    var joined := Tokenizer.JoinQuoted(values);
    Tokenizer.JoinStart(values);
    Tokenizer.QuotedOneLine(values);
    QuotedLineEnd(joined);
    Tokenizer.TokenizeQuoted(joined + "\r", 0, values);
  }

  lemma QuotedLineEnd(joined: string)
    requires '\n' !in joined
    ensures FindNewline(joined + CRLF, 0) == Some(|joined| + 1)
    ensures (joined + CRLF)[..|joined| + 1] == joined + "\r"
  {
    var line := joined + CRLF;
    assert line[|joined| + 1] == '\n' && line[|joined|] == '\r';
    forall i | 0 <= i < |joined| ensures line[i] != '\n' {
      assert line[i] == joined[i];
    }
  }
}
