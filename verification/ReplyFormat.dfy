/** How src/reply_format.cpp turns a reply on the wire into text for a terminal. */
module ReplyFormat {
  import opened Text
  import opened Resp
  import opened Tokenizer
  import opened Replies

  // ---------------------------------------------------------------
  // What is shown
  // ---------------------------------------------------------------

  function Spaces(n: nat): (s: string)
    ensures |s| == n
  {
    seq(n, _ => ' ')
  }

  lemma {:induction false} LabelsFit(i: nat, count: nat)
    requires i <= count
    ensures |NatToText(i)| <= |NatToText(count)|
  {
    if i >= 10 {
      LabelsFit(i / 10, count / 10);
    }
  }

  /** What stands before element `i` of `count`: a right-aligned number, on a new line unless it is the first. */
  function Label(i: nat, count: nat, indent: nat): string
    requires 1 <= i <= count
  {
    LabelsFit(i, count);
    (if i > 1 then "\n" + Spaces(indent) else "")
      + (Spaces(|NatToText(count)| - |NatToText(i)|) + (NatToText(i) + ") "))
  }

  predicate AllBytes(v: Wire) {
    match v
    case Bulk(text) => IsBytes(text)
    case Array(items) => forall i :: 0 <= i < |items| ==> AllBytes(items[i])
    case _ => true
  }

  /** The text for a reply, as a function of the reply itself. */
  function Render(v: Wire, indent: nat, raw: bool): string
    requires AllBytes(v)
    decreases v
  {
    match v
    case Simple(line) => line
    case Failed(line) => "(error) " + line
    case Integer(n) => "(integer) " + IntToText(n)
    case Bulk(text) => if raw then text else Quote(text)
    case Nil => "(nil)"
    case Array(items) =>
      if items == [] then "(empty array)" else RenderItems(items, 1, |items|, indent, raw)
  }

  /** The last elements of an array of `count`, the first of them being element `i`. */
  function RenderItems(items: seq<Wire>, i: nat, count: nat, indent: nat, raw: bool): string
    requires forall j :: 0 <= j < |items| ==> AllBytes(items[j])
    requires 1 <= i && i + |items| == count + 1
    decreases items
  {
    if items == [] then ""
    else
      Label(i, count, indent)
        + (Render(items[0], indent + |NatToText(count)| + 2, raw) + RenderItems(items[1..], i + 1, count, indent, raw))
  }

  // ---------------------------------------------------------------
  // Reading it off the wire
  // ---------------------------------------------------------------

  /** The text for the reply at `pos` and where the reply ends; or a protocol error. */
  datatype Reading = Shown(text: string, next: nat) | Bad

  function ShownAfter(text: string, rest: Reading): Reading {
    match rest
    case Shown(more, next) => Shown(text + more, next)
    case Bad => Bad
  }

  function ReadReply(b: string, pos: nat, indent: nat, raw: bool): (r: Reading)
    requires IsBytes(b)
    ensures r.Shown? ==> pos < r.next <= |b|
    decreases |b| - pos, 0, 0
  {
    if pos >= |b| then Bad
    else
      match FindCrlf(b, pos + 1)
      case None => Bad
      case Some(lineEnd) =>
        var line := b[pos + 1..lineEnd];
        var next := lineEnd + 2;
        if b[pos] == '+' then Shown(line, next)
        else if b[pos] == '-' then Shown("(error) " + line, next)
        else if b[pos] == ':' then Shown("(integer) " + line, next)
        else if b[pos] != '$' && b[pos] != '*' then Bad
        else
          match Stoll(line)
          case None => Bad
          case Some(count) =>
            if count < 0 then Shown("(nil)", next)
            else if b[pos] == '$' then
              if next + count + 2 > |b| then Bad
              else
                var value := b[next..next + count];
                Shown(if raw then value else Quote(value), next + count + 2)
            else if count == 0 then Shown("(empty array)", next)
            else ReadItems(b, next, 1, count, indent, raw)
  }

  /** The elements of an array of `count`, from element `i` on. */
  function ReadItems(b: string, pos: nat, i: nat, count: nat, indent: nat, raw: bool): (r: Reading)
    requires IsBytes(b) && pos <= |b| && 1 <= i <= count + 1
    ensures r.Shown? ==> pos <= r.next <= |b|
    decreases |b| - pos, 1, count + 1 - i
  {
    if i > count then Shown("", pos)
    else
      match ReadReply(b, pos, indent + |NatToText(count)| + 2, raw)
      case Bad => Bad
      case Shown(text, next) =>
        ShownAfter(Label(i, count, indent), ShownAfter(text, ReadItems(b, next, i + 1, count, indent, raw)))
  }

  /** The reader: a position that moves through the reply, and output that grows. */
  class ReplyReader {
    const reply: string
    const raw: bool
    var position: nat
    var output: string

    constructor (reply: string, raw: bool)
      ensures this.reply == reply && this.raw == raw && position == 0 && output == ""
    {
      this.reply, this.raw, position, output := reply, raw, 0, "";
    }

    method ReadLine() returns (line: Option<string>)
      modifies `position
      ensures match FindCrlf(reply, old(position))
              case None => line == None && position == old(position)
              case Some(end) => line == Some(reply[old(position)..end]) && position == end + 2
    {
      var end := FindCrlf(reply, position);
      if end.None? {
        return None;
      }
      line := Some(reply[position..end.value]);
      position := end.value + 2;
    }

    method Format(indent: nat) returns (ok: bool)
      requires IsBytes(reply)
      modifies `position, `output
      ensures match ReadReply(reply, old(position), indent, raw)
              case Bad => !ok
              case Shown(text, next) => ok && position == next && output == old(output) + text
      decreases |reply| - position, 1
    {
      hide Stoll, FindCrlf, Label, Quote, ReadItems;
      if position >= |reply| {
        return false;
      }
      var prefix := reply[position];
      position := position + 1;
      var found := ReadLine();
      if found.None? {
        return false;
      }
      var line := found.value;
      if prefix == '+' {
        output := output + line;
        return true;
      } else if prefix == '-' {
        output := output + ("(error) " + line);
        return true;
      } else if prefix == ':' {
        output := output + ("(integer) " + line);
        return true;
      } else if prefix != '$' && prefix != '*' {
        return false;
      }
      var count := Stoll(line);
      if count.None? {
        return false;
      }
      if count.value < 0 {
        output := output + "(nil)";
        return true;
      }
      if prefix == '$' {
        if position + count.value + 2 > |reply| {
          return false;
        }
        var value := reply[position..position + count.value];
        position := position + count.value + 2;
        var shown := value;
        if !raw {
          shown := QuoteValue(value);
        }
        output := output + shown;
        return true;
      }
      if count.value == 0 {
        output := output + "(empty array)";
        return true;
      }
      ok := FormatItems(count.value, indent);
    }

    /** Its loop over the elements of an array. */
    method FormatItems(count: nat, indent: nat) returns (ok: bool)
      requires IsBytes(reply) && position <= |reply| && count > 0
      modifies `position, `output
      ensures match ReadItems(reply, old(position), 1, count, indent, raw)
              case Bad => !ok
              case Shown(text, next) => ok && position == next && output == old(output) + text
      decreases |reply| - position, 2
    {
      hide ReadReply, ReadItems, Label;
      var width := |NatToText(count)|;
      var i := 1;
      ghost var shown := "";
      while i <= count
        invariant 1 <= i <= count + 1 && old(position) <= position <= |reply|
        invariant output == old(output) + shown
        invariant ReadItems(reply, old(position), 1, count, indent, raw) ==
                  ShownAfter(shown, ReadItems(reply, position, i, count, indent, raw))
        decreases count - i
      {
        NextElement(reply, position, i, count, indent, raw, shown);
        ghost var head, element := Label(i, count, indent), ReadReply(reply, position, indent + width + 2, raw);
        Begin(i, count, indent);
        ok := Format(indent + width + 2);
        if !ok {
          return false;
        }
        Regroup(old(output), shown, head, element.text);
        shown := shown + head + element.text;
        i := i + 1;
      }
      NoElements(reply, position, count, indent, raw);
      return true;
    }

    /** Writes what stands before an element. */
    method Begin(i: nat, count: nat, indent: nat)
      requires 1 <= i <= count
      modifies `output
      ensures output == old(output) + Label(i, count, indent)
    {
      LabelsFit(i, count);
      var head := NatToText(i);
      if i > 1 {
        output := output + ("\n" + Spaces(indent));
      }
      output := output + Spaces(|NatToText(count)| - |head|);
      output := output + (head + ") ");
    }
  }

  lemma Regroup(a: string, b: string, c: string, d: string)
    ensures a + b + c + d == a + (b + c + d)
  {
  }

  lemma NoElements(b: string, pos: nat, count: nat, indent: nat, raw: bool)
    requires IsBytes(b) && pos <= |b|
    ensures ReadItems(b, pos, count + 1, count, indent, raw) == Shown("", pos)
  {
  }

  lemma NextElement(b: string, pos: nat, i: nat, count: nat, indent: nat, raw: bool, shown: string)
    requires IsBytes(b) && pos <= |b| && 1 <= i <= count
    ensures ShownAfter(shown, ReadItems(b, pos, i, count, indent, raw)) ==
            match ReadReply(b, pos, indent + |NatToText(count)| + 2, raw)
            case Bad => Bad
            case Shown(text, next) =>
              ShownAfter(shown + Label(i, count, indent) + text, ReadItems(b, next, i + 1, count, indent, raw))
  {
    hide ReadReply, Label;
    match ReadReply(b, pos, indent + |NatToText(count)| + 2, raw)
    case Bad =>
    case Shown(text, next) =>
      var rest := ReadItems(b, next, i + 1, count, indent, raw);
      if rest.Shown? {
        var head := Label(i, count, indent);
        assert shown + (head + (text + rest.text)) == shown + head + text + rest.text;
      }
  }

  // ---------------------------------------------------------------
  // The two agree
  // ---------------------------------------------------------------

  /** A reply in a buffer is shown as itself, and reading stops exactly at its end. */
  lemma {:induction false} ReadExact(b: string, pos: nat, v: Wire, indent: nat, raw: bool)
    requires IsBytes(b) && AllBytes(v) && Sendable(v) && At(b, pos, Encode(v))
    ensures ReadReply(b, pos, indent, raw) == Shown(Render(v, indent, raw), pos + |Encode(v)|)
    decreases v
  {
    hide IntToText, Stoll, FindCrlf, OneLine, At, Quote, RenderItems, ReadItems, IsBytes;
    match v
    case Simple(line) => AtFindsLine(b, pos, '+', line);
    case Failed(line) => AtFindsLine(b, pos, '-', line);
    case Integer(n) =>
      NumberIsOneLine(n);
      AtFindsLine(b, pos, ':', IntToText(n));
    case Nil => AtFindsNumber(b, pos, '$', -1);
    case Bulk(text) => ReadBulkExact(b, pos, text, indent, raw);
    case Array(items) =>
      var head := "*" + (IntToText(|items|) + CRLF);
      AtSplit(b, pos, head, EncodeItems(items));
      if items == [] {
        AtFindsNumber(b, pos, '*', 0);
      } else {
        ReadArrayHeader(b, pos, |items|, indent, raw);
        ReadItemsExact(b, pos + |head|, items, 1, |items|, indent, raw);
      }
  }

  lemma ReadBulkExact(b: string, pos: nat, text: string, indent: nat, raw: bool)
    requires IsBytes(b) && IsBytes(text) && IsInt64(|text|) && At(b, pos, Encode(Wire.Bulk(text)))
    ensures ReadReply(b, pos, indent, raw) ==
            Shown(if raw then text else Quote(text), pos + |Encode(Wire.Bulk(text))|)
  {
    hide IntToText, Stoll, FindCrlf, OneLine, At, Quote, IsBytes;
    var head := "$" + (IntToText(|text|) + CRLF);
    AtSplit(b, pos, head, text + CRLF);
    AtFindsNumber(b, pos, '$', |text|);
    AtFits(b, pos + |head|, text + CRLF);
    AtSplit(b, pos + |head|, text, CRLF);
    AtSlice(b, pos + |head|, text);
  }

  lemma ReadArrayHeader(b: string, pos: nat, count: nat, indent: nat, raw: bool)
    requires IsBytes(b) && IsInt64(count) && count > 0 && At(b, pos, "*" + (IntToText(count) + CRLF))
    ensures var next := pos + |"*" + (IntToText(count) + CRLF)|;
            next <= |b| && ReadReply(b, pos, indent, raw) == ReadItems(b, next, 1, count, indent, raw)
  {
    hide IntToText, Stoll, FindCrlf, At, IsBytes, ReadItems;
    AtFindsNumber(b, pos, '*', count);
  }

  lemma AtSlice(b: string, pos: nat, part: string)
    requires At(b, pos, part)
    ensures pos + |part| <= |b| && b[pos..pos + |part|] == part
  {
  }

  lemma {:induction false} ReadItemsExact(b: string, pos: nat, items: seq<Wire>, i: nat, count: nat,
                                          indent: nat, raw: bool)
    requires IsBytes(b) && At(b, pos, EncodeItems(items)) && 1 <= i && i + |items| == count + 1
    requires forall j :: 0 <= j < |items| ==> AllBytes(items[j]) && Sendable(items[j])
    ensures pos <= |b|
    ensures ReadItems(b, pos, i, count, indent, raw) ==
            Shown(RenderItems(items, i, count, indent, raw), pos + |EncodeItems(items)|)
    decreases items
  {
    hide ReadReply, Encode, Sendable, AllBytes, Render, Label, At, IsBytes;
    AtFits(b, pos, EncodeItems(items));
    if items != [] {
      AtSplit(b, pos, Encode(items[0]), EncodeItems(items[1..]));
      ReadExact(b, pos, items[0], indent + |NatToText(count)| + 2, raw);
      ReadItemsExact(b, pos + |Encode(items[0])|, items[1..], i + 1, count, indent, raw);
    }
  }

  /** What a terminal shows for a reply, whatever bytes follow it. */
  lemma ReplyIsShown(v: Wire, rest: string, raw: bool)
    requires AllBytes(v) && Sendable(v) && IsBytes(Encode(v) + rest)
    ensures ReadReply(Encode(v) + rest, 0, 0, raw) == Shown(Render(v, 0, raw), |Encode(v)|)
  {
    hide ReadReply, Render, Encode, AllBytes, Sendable, IsBytes;
    ReadExact(Encode(v) + rest, 0, v, 0, raw);
  }

  /** formatReply: every failure is shown as a protocol error. */
  method FormatReply(reply: string, raw: bool) returns (text: string)
    requires IsBytes(reply)
    ensures text == match ReadReply(reply, 0, 0, raw) case Shown(shown, _) => shown case Bad => "(protocol error)"
  {
    hide ReadReply, IsBytes;
    var reader := new ReplyReader(reply, raw);
    var ok := reader.Format(0);
    if !ok {
      return "(protocol error)";
    }
    assert "" + reader.output == reader.output;
    return reader.output;
  }
}
