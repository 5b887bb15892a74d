/** Replies on the wire: the encoders of src/resp.cpp and the framing of benchmarks/benchmark.cpp. */
module Replies {
  import opened Text
  import opened Resp

  datatype Wire =
    | Simple(line: string)
    | Failed(line: string)
    | Integer(n: int)
    | Bulk(text: string)
    | Nil
    | Array(items: seq<Wire>)

  /** A line that its own CRLF ends. */
  predicate OneLine(line: string) {
    forall i :: 0 <= i < |line| ==> !CrlfAt(line + CRLF, i)
  }

  /** What the encoders can be given: no CRLF inside a line, and sizes that fit a `long long`. */
  predicate Sendable(v: Wire) {
    match v
    case Simple(line) => OneLine(line)
    case Failed(line) => OneLine(line)
    case Integer(n) => IsInt64(n)
    case Bulk(text) => IsInt64(|text|)
    case Nil => true
    case Array(items) => IsInt64(|items|) && forall i :: 0 <= i < |items| ==> Sendable(items[i])
  }

  function Encode(v: Wire): (s: string)
    ensures s != ""
  {
    match v
    case Simple(line) => "+" + (line + CRLF)
    case Failed(line) => "-" + (line + CRLF)
    case Integer(n) => ":" + (IntToText(n) + CRLF)
    case Bulk(text) => "$" + (IntToText(|text|) + CRLF) + (text + CRLF)
    case Nil => "$" + (IntToText(-1) + CRLF)
    case Array(items) => "*" + (IntToText(|items|) + CRLF) + EncodeItems(items)
  }

  function EncodeItems(items: seq<Wire>): string {
    if items == [] then "" else Encode(items[0]) + EncodeItems(items[1..])
  }

  // ---------------------------------------------------------------
  // Framing
  // ---------------------------------------------------------------

  /** The length of a complete reply, or not enough bytes yet, or an exception. */
  datatype Framing = Whole(length: nat) | Partial | Threw

  function After(n: nat, rest: Framing): Framing {
    match rest
    case Whole(length) => Whole(n + length)
    case _ => rest
  }

  function Frame(b: string, pos: nat): (r: Framing)
    ensures r.Whole? ==> 0 < r.length && pos + r.length <= |b|
    decreases |b| - pos, 0, 0
  {
    if pos >= |b| then Partial
    else
      match FindCrlf(b, pos)
      case None => Partial
      case Some(lineEnd) =>
        var header := lineEnd + 2 - pos;
        if b[pos] == '+' || b[pos] == '-' || b[pos] == ':' then Whole(header)
        else if b[pos] != '$' && b[pos] != '*' then Threw
        else
          match Stoll(b[pos + 1..lineEnd])
          case None => Threw
          case Some(count) =>
            if b[pos] == '$' then
              if count < 0 then Whole(header)
              else if pos + header + count + 2 <= |b| then Whole(header + count + 2)
              else Partial
            else if count <= 0 then Whole(header)
            else After(header, FrameItems(b, pos + header, count))
  }

  /** The combined length of `count` replies one after the other. */
  function FrameItems(b: string, pos: nat, count: nat): (r: Framing)
    requires pos <= |b|
    ensures r.Whole? ==> pos + r.length <= |b|
    decreases |b| - pos, 1, count
  {
    if count == 0 then Whole(0)
    else
      match Frame(b, pos)
      case Whole(length) => After(length, FrameItems(b, pos + length, count - 1))
      case other => other
  }

  /** completeReplyLength, with its loop over the elements. */
  method CompleteReplyLength(buffer: string, position: nat) returns (r: Framing)
    ensures r == Frame(buffer, position)
    decreases |buffer| - position, 1
  {
    hide Stoll, FindCrlf;
    if position >= |buffer| {
      return Partial;
    }
    var lineEnd := FindCrlf(buffer, position);
    if lineEnd.None? {
      return Partial;
    }
    var kind := buffer[position];
    var header := lineEnd.value + 2 - position;
    if kind == '+' || kind == '-' || kind == ':' {
      return Whole(header);
    }
    if kind != '$' && kind != '*' {
      return Threw;
    }
    var count := Stoll(buffer[position + 1..lineEnd.value]);
    if count.None? {
      return Threw;
    }
    if kind == '$' {
      if count.value < 0 {
        return Whole(header);
      }
      var total := header + count.value + 2;
      return if position + total <= |buffer| then Whole(total) else Partial;
    }
    var expected := if count.value < 0 then 0 else count.value;
    NoItems(buffer, position + header, header);
    r := AddElements(buffer, position, header, expected);
  }

  /** Its loop over the elements of an array. */
  method AddElements(buffer: string, position: nat, header: nat, count: nat) returns (r: Framing)
    requires 0 < header && position + header <= |buffer|
    ensures r == After(header, FrameItems(buffer, position + header, count))
    decreases |buffer| - position, 0
  {
    hide Frame, FrameItems;
    var total := header;
    for i := 0 to count
      invariant header <= total && position + total <= |buffer|
      invariant After(header, FrameItems(buffer, position + header, count)) ==
                After(total, FrameItems(buffer, position + total, count - i))
    {
      NextItem(buffer, position + total, count - i, total);
      var element := CompleteReplyLength(buffer, position + total);
      if !element.Whole? {
        return element;
      }
      total := total + element.length;
    }
    NoItems(buffer, position + total, total);
    return Whole(total);
  }

  lemma NoItems(b: string, pos: nat, total: nat)
    requires pos <= |b|
    ensures After(total, FrameItems(b, pos, 0)) == Whole(total)
  {
  }

  lemma NextItem(b: string, pos: nat, count: nat, total: nat)
    requires pos <= |b| && count > 0
    ensures After(total, FrameItems(b, pos, count)) ==
            match Frame(b, pos)
            case Whole(length) => After(total + length, FrameItems(b, pos + length, count - 1))
            case other => other
  {
    hide Frame;
  }

  // ---------------------------------------------------------------
  // Stability
  // ---------------------------------------------------------------

  /** A frame that is complete, or bad, stays so whatever follows. */
  lemma {:induction false} FrameStable(b: string, more: string, pos: nat)
    requires b <= more && !Frame(b, pos).Partial?
    ensures Frame(more, pos) == Frame(b, pos)
    decreases |b| - pos, 0, 0
  {
    hide Stoll;
    FindCrlfStable(b, more, pos);
    var lineEnd := FindCrlf(b, pos).value;
    if b[pos] == '*' {
      assert more[pos + 1..lineEnd] == b[pos + 1..lineEnd];
      var count := Stoll(b[pos + 1..lineEnd]);
      if count.Some? && count.value > 0 {
        FrameItemsStable(b, more, lineEnd + 2, count.value);
      }
    } else if b[pos] == '$' {
      assert more[pos + 1..lineEnd] == b[pos + 1..lineEnd];
    }
  }

  lemma {:induction false} FrameItemsStable(b: string, more: string, pos: nat, count: nat)
    requires b <= more && pos <= |b| && !FrameItems(b, pos, count).Partial?
    ensures FrameItems(more, pos, count) == FrameItems(b, pos, count)
    decreases |b| - pos, 1, count
  {
    hide Frame;
    if count > 0 {
      FrameStable(b, more, pos);
      var first := Frame(b, pos);
      if first.Whole? {
        FrameItemsStable(b, more, pos + first.length, count - 1);
      }
    }
  }

  // ---------------------------------------------------------------
  // Exactness
  // ---------------------------------------------------------------

  lemma AtFindsLine(b: string, pos: nat, kind: char, line: string)
    requires kind != '\r' && OneLine(line) && At(b, pos, [kind] + (line + CRLF))
    ensures pos < |b| && b[pos] == kind
    ensures FindCrlf(b, pos) == Some(pos + 1 + |line|) && FindCrlf(b, pos + 1) == Some(pos + 1 + |line|)
    ensures b[pos + 1..pos + 1 + |line|] == line && pos + |line| + 3 <= |b|
  {
    hide FindCrlf;
    var head := line + CRLF;
    AtSplit(b, pos, [kind], head);
    AtFirst(b, pos, [kind]);
    AtFits(b, pos + 1, head);
    var end := pos + 1 + |line|;
    AtSplit(b, pos + 1, line, CRLF);
    assert b[end + 0] == CRLF[0] && b[end + 1] == CRLF[1];
    forall i | pos + 1 <= i < end ensures !CrlfAt(b, i) {
      assert b[pos + 1 + (i - pos - 1)] == head[i - pos - 1];
      assert b[pos + 1 + (i - pos)] == head[i - pos];
      assert !CrlfAt(head, i - pos - 1);
    }
    FoundAt(b, pos, end);
    FoundAt(b, pos + 1, end);
    assert b[pos + 1..end] == line;
  }

  lemma FoundAt(b: string, from: nat, at: nat)
    requires from <= at && CrlfAt(b, at) && forall i :: from <= i < at ==> !CrlfAt(b, i)
    ensures FindCrlf(b, from) == Some(at)
  {
  }

  lemma NumberIsOneLine(n: int)
    ensures OneLine(IntToText(n))
  {
    hide IntToText;
    var line := IntToText(n);
    forall i | 0 <= i < |line| ensures !CrlfAt(line + CRLF, i) {
      assert (line + CRLF)[i] == line[i];
      assert line[i] != '\r';
    }
  }

  /** The header line of a bulk string or an array, and the number in it. */
  lemma AtFindsNumber(b: string, pos: nat, kind: char, n: int)
    requires kind != '\r' && IsInt64(n) && At(b, pos, [kind] + (IntToText(n) + CRLF))
    ensures pos < |b| && b[pos] == kind
    ensures FindCrlf(b, pos) == Some(pos + 1 + |IntToText(n)|)
    ensures FindCrlf(b, pos + 1) == Some(pos + 1 + |IntToText(n)|)
    ensures pos + |IntToText(n)| + 3 <= |b| && Stoll(b[pos + 1..pos + 1 + |IntToText(n)|]) == Some(n)
  {
    hide IntToText, Stoll, FindCrlf, OneLine;
    NumberIsOneLine(n);
    AtFindsLine(b, pos, kind, IntToText(n));
    StollRoundTrip(n);
  }

  /** A reply in a buffer is framed exactly, whatever surrounds it. */
  lemma {:induction false} FrameExact(b: string, pos: nat, v: Wire)
    requires Sendable(v) && At(b, pos, Encode(v))
    ensures Frame(b, pos) == Whole(|Encode(v)|)
    decreases v
  {
    hide IntToText, Stoll, FindCrlf, OneLine, At;
    match v
    case Simple(line) => AtFindsLine(b, pos, '+', line);
    case Failed(line) => AtFindsLine(b, pos, '-', line);
    case Integer(n) =>
      NumberIsOneLine(n);
      AtFindsLine(b, pos, ':', IntToText(n));
    case Nil => AtFindsNumber(b, pos, '$', -1);
    case Bulk(text) =>
      var head := "$" + (IntToText(|text|) + CRLF);
      AtSplit(b, pos, head, text + CRLF);
      AtFindsNumber(b, pos, '$', |text|);
      AtFits(b, pos + |head|, text + CRLF);
    case Array(items) =>
      var head := "*" + (IntToText(|items|) + CRLF);
      AtSplit(b, pos, head, EncodeItems(items));
      AtFindsNumber(b, pos, '*', |items|);
      FrameItemsExact(b, pos + |head|, items);
  }

  lemma {:induction false} FrameItemsExact(b: string, pos: nat, items: seq<Wire>)
    requires (forall i :: 0 <= i < |items| ==> Sendable(items[i])) && At(b, pos, EncodeItems(items))
    ensures pos <= |b| && FrameItems(b, pos, |items|) == Whole(|EncodeItems(items)|)
    decreases items
  {
    hide Frame, Encode, Sendable, At;
    AtFits(b, pos, EncodeItems(items));
    if items != [] {
      AtSplit(b, pos, Encode(items[0]), EncodeItems(items[1..]));
      FrameExact(b, pos, items[0]);
      FrameItemsExact(b, pos + |Encode(items[0])|, items[1..]);
    }
  }

  /** The framing of a reply followed by anything, and of every part of a reply. */
  lemma ReplyFraming(v: Wire, rest: string, p: nat)
    requires Sendable(v) && p < |Encode(v)|
    ensures Frame(Encode(v) + rest, 0) == Whole(|Encode(v)|)
    ensures Frame(Encode(v)[..p], 0) == Partial
  {
    hide Frame, Encode, Sendable;
    FrameExact(Encode(v) + rest, 0, v);
    FrameExact(Encode(v), 0, v);
    var part := Encode(v)[..p];
    if !Frame(part, 0).Partial? {
      FrameStable(part, Encode(v), 0);
    }
  }

  /** A simple or error line is framed exactly if and only if its own CRLF is the first one in it. */
  lemma LineFraming(kind: char, line: string)
    requires kind == '+' || kind == '-'
    ensures Frame([kind] + (line + CRLF), 0) == Whole(|line| + 3) <==> OneLine(line)
  {
    var body := line + CRLF;
    var b := [kind] + body;
    if OneLine(line) {
      FrameExact(b, 0, if kind == '+' then Simple(line) else Failed(line));
    } else {
      var i :| 0 <= i < |line| && CrlfAt(body, i);
      assert b[i + 1] == body[i] && b[i + 2] == body[i + 1];
      assert CrlfAt(b, i + 1);
    }
  }
}
