/** The bytes of replies, and the text that a terminal shows for them, kind by kind. */
module ReplyLaws {
  import opened Text
  import opened Values
  import opened Keyspace
  import opened Resp
  import opened Tokenizer
  import opened CommandSpec
  import opened Replies
  import opened ReplyFormat
  import opened Payload
  import opened Stream
  import opened Names
  import opened StringLaws

  // ---------------------------------------------------------------
  // Bytes on the wire
  // ---------------------------------------------------------------

  /** Replies of one fixed text. */
  lemma FixedReplies(c: Command)
    ensures ReplyBytes(Reply.Ok, c) == "+OK\r\n" && ReplyBytes(Pong, c) == "+PONG\r\n"
    ensures ReplyBytes(Null, c) == "$-1\r\n"
  {
    assert IntToText(-1) == "-1" by {
      assert NatToText(1) == "1";
    }
  }

  /** The answer of TYPE. */
  lemma KindReplies(v: Value, c: Command)
    ensures ReplyBytes(Kind(None), c) == "+none\r\n"
    ensures ReplyBytes(Kind(Some(v)), c) ==
      if v.Str? then "+string\r\n" else if v.List? then "+list\r\n" else if v.Hash? then "+hash\r\n" else "+set\r\n"
  {
  }

  /** One value, byte for byte, after its length. */
  function Sized(text: string): string {
    "$" + NatToText(|text|) + "\r\n" + text + "\r\n"
  }

  lemma ValueReplies(n: int, text: string, c: Command)
    ensures ReplyBytes(Reply.Integer(n), c) == ":" + IntToText(n) + "\r\n"
    ensures ReplyBytes(BulkReply(text), c) == Sized(text)
  {
    hide NatToText, IntToText;
    LengthText(|text|);
    var digits := NatToText(|text|);
    assert "$" + (digits + CRLF) + (text + CRLF) == "$" + digits + "\r\n" + text + "\r\n";
  }

  lemma LengthText(n: nat)
    ensures IntToText(n) == NatToText(n)
  {
  }

  lemma {:induction false} ItemsAreBulks(items: seq<string>)
    ensures EncodeItems(seq(|items|, i requires 0 <= i < |items| => Wire.Bulk(items[i]))) == EncodeBulks(items)
  {
    hide NatToText, IntToText;
    var wires := seq(|items|, i requires 0 <= i < |items| => Wire.Bulk(items[i]));
    if items != [] {
      var rest := items[1..];
      ItemsAreBulks(rest);
      assert wires[1..] == seq(|rest|, i requires 0 <= i < |rest| => Wire.Bulk(rest[i]));
      LengthText(|items[0]|);
      var digits := NatToText(|items[0]|);
      assert "$" + (digits + CRLF) + (items[0] + CRLF) == EncodeBulk(items[0]);
    }
  }

  lemma ArrayBytes(reply: Reply, c: Command, wires: seq<Wire>)
    requires !reply.Unspecified? && ToWire(reply, c) == Array(wires)
    ensures ReplyBytes(reply, c) == "*" + NatToText(|wires|) + "\r\n" + EncodeItems(wires)
  {
    hide NatToText, IntToText, EncodeItems, ToWire;
    LengthText(|wires|);
    var digits := NatToText(|wires|);
    assert "*" + (digits + CRLF) == "*" + digits + "\r\n";
  }

  /** A list of texts goes out as a command with these arguments would come in. */
  lemma ListReplies(items: seq<string>, c: Command)
    ensures ReplyBytes(Strings(items), c) == EncodeCommand(items)
  {
    hide NatToText, EncodeItems, EncodeBulks, ErrorLine, KindName, ReplyBytes;
    ItemsAreBulks(items);
    ArrayBytes(Strings(items), c, seq(|items|, i requires 0 <= i < |items| => Wire.Bulk(items[i])));
  }

  /** A value of MGET, or what stands for a missing one. */
  function SizedOrNil(value: Option<string>): string {
    if value.Some? then Sized(value.value) else "$-1\r\n"
  }

  lemma OptionalBytes(value: Option<string>)
    ensures Encode(OptionalBulk(value)) == SizedOrNil(value)
  {
    hide ErrorLine;
    if value.Some? {
      ValueReplies(0, value.value, []);
    } else {
      FixedReplies([]);
    }
  }

  lemma {:induction false} ItemsAreFlat(found: seq<Option<string>>)
    ensures EncodeItems(seq(|found|, i requires 0 <= i < |found| => OptionalBulk(found[i]))) ==
            Flat(seq(|found|, i requires 0 <= i < |found| => SizedOrNil(found[i])))
  {
    hide OptionalBulk, Encode, SizedOrNil;
    if found != [] {
      var rest := found[1..];
      ItemsAreFlat(rest);
      OptionalBytes(found[0]);
      var wires := seq(|found|, i requires 0 <= i < |found| => OptionalBulk(found[i]));
      var texts := seq(|found|, i requires 0 <= i < |found| => SizedOrNil(found[i]));
      assert wires[1..] == seq(|rest|, i requires 0 <= i < |rest| => OptionalBulk(rest[i]));
      assert texts[1..] == seq(|rest|, i requires 0 <= i < |rest| => SizedOrNil(rest[i]));
    }
  }

  /** The answer of MGET: the number of values, and each of them in order. */
  lemma OptionalReplies(found: seq<Option<string>>, c: Command)
    ensures ReplyBytes(Values(found), c) ==
      "*" + NatToText(|found|) + "\r\n" + Flat(seq(|found|, i requires 0 <= i < |found| => SizedOrNil(found[i])))
  {
    hide NatToText, EncodeItems, Flat, SizedOrNil, OptionalBulk, ErrorLine, KindName, ReplyBytes;
    ItemsAreFlat(found);
    ArrayBytes(Values(found), c, seq(|found|, i requires 0 <= i < |found| => OptionalBulk(found[i])));
  }

  // ---------------------------------------------------------------
  // Errors
  // ---------------------------------------------------------------

  /** The word that a client tells errors apart by. */
  function Code(problem: Problem): string {
    if problem == Store(WrongType) then "WRONGTYPE"
    else if problem == OutOfMemory then "OOM"
    else if problem == Misconfigured then "MISCONF"
    else "ERR"
  }

  /** An error is one line: a minus sign, its code, a blank and the rest of the text. */
  ghost predicate Coded(line: string, code: string) {
    |line| > |code| && (forall k :: 0 <= k < |code| ==> line[k] == code[k]) && line[|code|] == ' '
  }

  lemma CodeOfStore(error: DbError, c: Command)
    ensures Coded(ErrorLine(Store(error), c), Code(Store(error)))
  {
    hide Lower;
  }

  lemma CodeOfState(problem: Problem, c: Command)
    requires problem in {OutOfMemory, Misconfigured}
    ensures Coded(ErrorLine(problem, c), Code(problem))
  {
    hide Lower;
  }

  lemma CodeOfSetting(problem: Problem, c: Command)
    requires problem in {BadPolicy, BadMemorySize}
    ensures Coded(ErrorLine(problem, c), Code(problem))
  {
    hide Lower;
  }

  lemma CodeOfNaming(problem: Problem, c: Command)
    requires NamesCommand(problem) || Repeats(problem)
    ensures Coded(ErrorLine(problem, c), Code(problem))
  {
    hide Lower;
  }

  lemma CodeOfOthers(problem: Problem, c: Command)
    requires problem in {EmptyCommand, BadInteger, BadSyntax, DecrementOverflow, BadIndex}
    ensures Coded(ErrorLine(problem, c), Code(problem))
  {
    hide Lower;
  }

  /** Every error goes out as a line with its code in front. */
  lemma ErrorReplies(problem: Problem, c: Command)
    ensures Coded(ErrorLine(problem, c), Code(problem))
    ensures ReplyBytes(Failure(problem), c) == "-" + ErrorLine(problem, c) + "\r\n"
  {
    hide ErrorLine, Coded, Code;
    if problem.Store? {
      CodeOfStore(problem.error, c);
    } else if problem in {OutOfMemory, Misconfigured} {
      CodeOfState(problem, c);
    } else if problem in {BadPolicy, BadMemorySize} {
      CodeOfSetting(problem, c);
    } else if NamesCommand(problem) || Repeats(problem) {
      CodeOfNaming(problem, c);
    } else {
      CodeOfOthers(problem, c);
    }
  }

  /** The errors that name what was sent. */
  lemma NamingErrors(name: string, c: Command)
    requires c != []
    ensures ReplyBytes(Failure(UnknownCommand(name)), c) == "-ERR unknown command '" + name + "'\r\n"
    ensures ErrorLine(WrongArguments, c) == "ERR wrong number of arguments for '" + Lower(c[0]) + "' command"
    ensures ErrorLine(BadExpire, c) == "ERR invalid expire time in '" + Lower(c[0]) + "' command"
  {
    hide Lower;
    var text := "ERR unknown command '";
    UnknownBytes(name, text);
    assert "-" + text == "-ERR unknown command '";
    assert "-" + text + (name + ("'" + CRLF)) == "-" + text + name + "'\r\n";
  }

  /** The errors about an argument. */
  lemma ArgumentErrors(c: Command)
    ensures ErrorLine(BadSyntax, c) == "ERR syntax error"
    ensures ErrorLine(BadInteger, c) == ErrorLine(Store(NotInteger), c)
  {
    hide Lower;
  }

  /** A GET, byte for byte. */
  lemma GetBytes(ks: Keyspace, c: Command, now: int)
    requires Calls(c, "GET") && |c| == 2 && (c[1] in ks ==> ks[c[1]].value.Str?)
    ensures var e := Exec(ks, c, now);
      && !e.reply.Unspecified?
      && ReplyBytes(e.reply, c) == SizedOrNil(if c[1] in ks then Some(ks[c[1]].value.text) else None)
  {
    hide Exec, ReplyBytes;
    GetAnswers(ks, c, now);
    if c[1] in ks {
      ValueReplies(0, ks[c[1]].value.text, c);
    } else {
      FixedReplies(c);
    }
  }

  // ---------------------------------------------------------------
  // On a terminal
  // ---------------------------------------------------------------

  lemma ShownReplies(line: string, n: int, indent: nat, raw: bool)
    ensures Render(Simple(line), indent, raw) == line
    ensures Render(Failed(line), indent, raw) == "(error) " + line
    ensures Render(Wire.Integer(n), indent, raw) == "(integer) " + IntToText(n)
    ensures Render(Nil, indent, raw) == "(nil)" && Render(Array([]), indent, raw) == "(empty array)"
  {
    hide IntToText;
  }

  /** Values are quoted unless raw output is asked for. */
  lemma ShownValue(text: string, indent: nat)
    requires IsBytes(text)
    ensures Render(Wire.Bulk(text), indent, true) == text
    ensures Tokenize(Render(Wire.Bulk(text), indent, false)) == Some([text])
  {
    hide Quote, Tokenize;
    QuoteTokenizeInverse([text]);
  }

  /** Numbers stand in a column as wide as the last one, so that all elements start at the same place. */
  lemma LabelsAlign(i: nat, count: nat, indent: nat)
    requires 1 <= i <= count
    ensures var head := Label(i, count, indent);
      var start := if i == 1 then 0 else indent + 1;
      && |head| == start + |NatToText(count)| + 2
      && (i > 1 ==> head[0] == '\n')
      && head[|head| - |NatToText(i)| - 2..] == NatToText(i) + ") "
      && forall k :: (if i == 1 then 0 else 1) <= k < |head| - |NatToText(i)| - 2 ==> head[k] == ' '
  {
    hide NatToText;
    LabelsFit(i, count);
  }

  /** The number before the only element, and before the first and the second of two. */
  lemma FirstLabels(indent: nat)
    ensures Label(1, 1, indent) == "1) " && Label(1, 2, indent) == "1) "
    ensures Label(2, 2, indent) == "\n" + Spaces(indent) + "2) "
    ensures |NatToText(1)| == 1 && |NatToText(2)| == 1
  {
    assert NatToText(1) == "1" && NatToText(2) == "2";
    assert Spaces(0) == "";
    var line := "\n" + Spaces(indent);
    assert line + ("" + "2) ") == line + "2) ";
  }

  lemma ItemFirst(items: seq<Wire>, i: nat, count: nat, indent: nat, raw: bool)
    requires items != [] && 1 <= i && i + |items| == count + 1
    requires forall j :: 0 <= j < |items| ==> AllBytes(items[j])
    ensures RenderItems(items, i, count, indent, raw) ==
      Label(i, count, indent) + (Render(items[0], indent + |NatToText(count)| + 2, raw) +
        (if |items| == 1 then "" else RenderItems(items[1..], i + 1, count, indent, raw)))
  {
    hide Label, Render, AllBytes, NatToText;
  }

  lemma ShownOne(a: Wire, indent: nat, raw: bool)
    requires AllBytes(a)
    ensures Render(Array([a]), indent, raw) == "1) " + Render(a, indent + 3, raw)
  {
    hide Label, NatToText, RenderItems, Spaces;
    FirstLabels(indent);
    ItemFirst([a], 1, 1, indent, raw);
    var first := Render(a, indent + 3, raw);
    assert first + "" == first;
  }

  lemma LastOfTwo(a: Wire, b: Wire, indent: nat, raw: bool)
    requires AllBytes(a) && AllBytes(b)
    ensures RenderItems([a, b][1..], 2, 2, indent, raw) ==
      "\n" + Spaces(indent) + "2) " + Render(b, indent + 3, raw)
  {
    hide Label, NatToText, RenderItems, Spaces, Render;
    FirstLabels(indent);
    assert [a, b][1..] == [b];
    ItemFirst([b], 2, 2, indent, raw);
    var last := Render(b, indent + 3, raw);
    assert last + "" == last;
  }

  /** Two elements, one to a line, each behind its number. */
  lemma ShownPair(a: Wire, b: Wire, indent: nat, raw: bool)
    requires AllBytes(a) && AllBytes(b)
    ensures Render(Array([a, b]), indent, raw) ==
      "1) " + Render(a, indent + 3, raw) + ("\n" + Spaces(indent) + "2) " + Render(b, indent + 3, raw))
  {
    hide Label, NatToText, RenderItems, Spaces;
    FirstLabels(indent);
    ItemFirst([a, b], 1, 2, indent, raw);
    LastOfTwo(a, b, indent, raw);
    var first, rest := Render(a, indent + 3, raw), "\n" + Spaces(indent) + "2) " + Render(b, indent + 3, raw);
    assert "1) " + (first + rest) == "1) " + first + rest;
  }
}
