/** The append-only file of src/aof.cpp: what is in it, what is still buffered, and how a torn file is repaired. */
module Aof {
  import opened Resp
  import opened SystemCalls

  /** The bytes of a log. */
  function EncodeAll(log: seq<Command>): string {
    if log == [] then "" else EncodeAll(log[..|log| - 1]) + EncodeCommand(log[|log| - 1])
  }

  lemma {:induction false} EncodeAllAppend(a: seq<Command>, b: seq<Command>)
    ensures EncodeAll(a + b) == EncodeAll(a) + EncodeAll(b)
  {
    hide EncodeCommand;
    if b == [] {
      assert a + b == a;
    } else {
      assert (a + b)[..|a + b| - 1] == a + b[..|b| - 1];
      EncodeAllAppend(a, b[..|b| - 1]);
    }
  }

  lemma EncodeOne(c: Command)
    ensures EncodeAll([c]) == EncodeCommand(c)
  {
    assert [c][..0] == [];
    assert "" + EncodeCommand(c) == EncodeCommand(c);
  }

  /**
   * The file and the write buffer. A write may be short, interrupted or fail; whatever
   * happens, file and buffer together hold exactly what has been appended, in order.
   */
  class AppendOnlyFile {
    var file: string
    var buffer: string
    var isOpen: bool
    var needsSync: bool
    var writeFailed: bool
    /** The file when it was opened. */
    ghost var base: string
    ghost var appended: seq<Command>

    ghost predicate Valid()
      reads this
    {
      file + buffer == base + EncodeAll(appended) && (writeFailed ==> buffer != "")
    }

    constructor (contents: string)
      ensures Valid() && file == base == contents && appended == [] && !writeFailed && !isOpen && buffer == ""
    {
      file, base, buffer, appended := contents, contents, "", [];
      isOpen, needsSync, writeFailed := false, false, false;
      new;
      assert contents + "" == contents;
    }

    method Open()
      requires Valid()
      modifies `isOpen
      ensures Valid() && isOpen
    {
      isOpen := true;
    }

    method Append(arguments: Command)
      requires Valid()
      modifies `buffer, `appended
      ensures Valid() && appended == old(appended) + [arguments]
      ensures buffer == old(buffer) + EncodeCommand(arguments)
    {
      hide EncodeCommand, EncodeAll;
      var encoded := RespArray(arguments);
      EncodeAllAppend(appended, [arguments]);
      EncodeOne(arguments);
      assert file + (buffer + encoded) == (file + buffer) + encoded;
      assert base + EncodeAll(appended) + encoded == base + (EncodeAll(appended) + encoded);
      buffer := buffer + encoded;
      appended := appended + [arguments];
    }

    /** What a flush writes if the system answers with these responses; only a full write is a success. */
    ghost function Writes(responses: seq<Response>): Transfer
      reads `buffer, `isOpen
    {
      if buffer != "" && !isOpen then Transfer(0, Broken) else Offer(|buffer|, 0, responses)
    }

    /** Writes the buffer out. On a failure it keeps what was not written, for a later flush. */
    method Flush(responses: seq<Response>) returns (ok: bool)
      requires Valid()
      modifies `file, `buffer, `needsSync, `writeFailed
      ensures Valid()
      ensures ok <==> old(Writes(responses)).stop.Done?
      ensures ok <==> file == base + EncodeAll(appended)
      ensures var n := old(Writes(responses)).count;
        file == old(file) + old(buffer)[..n] && buffer == old(buffer)[n..]
      ensures ok ==> !writeFailed && (old(buffer) != "" ==> needsSync)
      ensures !ok ==> writeFailed == (old(isOpen) || old(writeFailed))
    {
      hide EncodeAll, Offer;
      OfferNothing(|buffer|, responses);
      if buffer == "" {
        assert file + buffer[..0] == file;
        assert file + buffer == file;
        return true;
      }
      if !isOpen {
        assert file + buffer[..0] == file;
        return false;
      }
      var written, i := 0, 0;
      assert responses[0..] == responses;
      assert file + buffer[..0] == file;
      while written < |buffer|
        invariant written <= |buffer| && i <= |responses|
        invariant file == old(file) + buffer[..written] && buffer == old(buffer)
        invariant Offer(|buffer|, 0, responses) == Offer(|buffer|, written, responses[i..])
        decreases |responses| - i, |buffer| - written
      {
        OfferOnce(|buffer|, written, responses, i);
        var response := Next(responses, i, |buffer| - written);
        i := Min(|responses|, i + 1);
        if response.Interrupted? {
          continue;
        }
        if response.WouldBlock? || response.count == 0 {
          SplitAt(old(file), buffer, written);
          buffer := buffer[written..];
          writeFailed := true;
          return false;
        }
        var next := Min(|buffer|, written + response.count);
        assert old(file) + buffer[..next] == old(file) + buffer[..written] + buffer[written..next];
        file := file + buffer[written..next];
        written := next;
      }
      OfferNothing(|buffer|, responses[i..]);
      assert buffer[..written] == buffer;
      buffer := "";
      needsSync := true;
      writeFailed := false;
      assert file + buffer == file;
      return true;
    }

    lemma SplitAt(a: string, b: string, n: nat)
      requires n <= |b|
      ensures a + b[..n] + b[n..] == a + b
    {
      assert b[..n] + b[n..] == b;
    }

    predicate Healthy()
      reads `writeFailed
    {
      !writeFailed
    }
  }

  // ---------------------------------------------------------------
  // Torn files
  // ---------------------------------------------------------------

  ghost predicate AllWithinLimits(log: seq<Command>) {
    forall i :: 0 <= i < |log| ==> WithinLimits(log[i])
  }

  /** How many whole commands the first `p` bytes of a log hold. */
  ghost function WholeCommands(log: seq<Command>, p: nat): (n: nat)
    ensures n <= |log|
  {
    if log == [] then 0
    else if |EncodeAll(log)| <= p then |log|
    else WholeCommands(log[..|log| - 1], p)
  }

  /** It is the longest prefix that fits. */
  lemma {:induction false} WholeCommandsFit(log: seq<Command>, p: nat)
    ensures var n := WholeCommands(log, p);
            |EncodeAll(log[..n])| <= p && (n < |log| ==> p < |EncodeAll(log[..n + 1])|)
  {
    hide EncodeCommand;
    if log != [] && |EncodeAll(log)| > p {
      var init := log[..|log| - 1];
      WholeCommandsFit(init, p);
      var n := WholeCommands(init, p);
      assert init[..n] == log[..n];
      if n < |init| {
        assert init[..n + 1] == log[..n + 1];
      } else {
        assert log[..n + 1] == log;
      }
    } else if log != [] {
      assert log[..|log|] == log;
    } else {
      assert log[..0] == [];
    }
  }

  /** What reading a file of commands comes to: the commands found, and where and how it stopped. */
  datatype Reading = Reading(commands: seq<Command>, end: nat, stop: Stop)

  datatype Stop = AtEnd | Torn | Corrupt(error: ProtocolError)

  /** The parsing loop of `load`, from byte `pos` on. */
  function ReadAll(contents: string, pos: nat): (r: Reading)
    requires pos <= |contents|
    ensures pos <= r.end <= |contents|
    ensures r.stop.AtEnd? ==> r.end == |contents|
    decreases |contents| - pos
  {
    if pos >= |contents| then Reading([], pos, AtEnd)
    else
      match Parse(contents[pos..])
      case Incomplete => Reading([], pos, Torn)
      case Error(error) => Reading([], pos, Corrupt(error))
      case Complete(arguments, consumed) =>
        var rest := ReadAll(contents, pos + consumed);
        rest.(commands := [arguments] + rest.commands)
  }

  lemma EncodeAllFirst(log: seq<Command>)
    requires log != []
    ensures EncodeAll(log) == EncodeCommand(log[0]) + EncodeAll(log[1..])
  {
    hide EncodeCommand, EncodeAll;
    assert log == [log[0]] + log[1..];
    EncodeAllAppend([log[0]], log[1..]);
    EncodeOne(log[0]);
  }

  lemma SkipFirst(contents: string, pos: nat, first: string, rest: string)
    requires pos <= |contents| && contents[pos..] == first + rest
    ensures pos + |first| <= |contents| && contents[pos + |first|..] == rest
  {
    assert contents[pos + |first|..] == contents[pos..][|first|..];
  }

  /** One turn of the parsing loop. */
  lemma ReadNext(contents: string, pos: nat)
    requires pos <= |contents|
    ensures pos == |contents| ==> ReadAll(contents, pos) == Reading([], pos, AtEnd)
    ensures pos < |contents| ==>
      match Parse(contents[pos..])
      case Incomplete => ReadAll(contents, pos) == Reading([], pos, Torn)
      case Error(error) => ReadAll(contents, pos) == Reading([], pos, Corrupt(error))
      case Complete(arguments, consumed) =>
        var rest := ReadAll(contents, pos + consumed);
        ReadAll(contents, pos) == Reading([arguments] + rest.commands, rest.end, rest.stop)
  {
    hide Parse;
  }

  /** Reading whole commands one after the other. */
  lemma {:induction false} ReadWhole(contents: string, pos: nat, log: seq<Command>, tail: string)
    requires AllWithinLimits(log)
    requires pos <= |contents| && contents[pos..] == EncodeAll(log) + tail
    requires tail == "" || Parse(tail).Incomplete?
    ensures ReadAll(contents, pos) ==
            Reading(log, pos + |EncodeAll(log)|, if tail == "" then AtEnd else Torn)
    decreases |log|
  {
    hide Parse, EncodeCommand, WithinLimits, ReadAll;
    if log == [] {
      assert contents[pos..] == tail;
      ReadNext(contents, pos);
    } else {
      var first, rest := EncodeCommand(log[0]), EncodeAll(log[1..]);
      EncodeAllFirst(log);
      CommandRoundTrip(log[0], rest + tail);
      SkipFirst(contents, pos, first, rest + tail);
      assert EncodeAll(log) + tail == first + (rest + tail);
      ReadWhole(contents, pos + |first|, log[1..], tail);
      ReadNext(contents, pos);
      assert [log[0]] + log[1..] == log;
    }
  }

  /**
   * A crash can leave any byte prefix of the log. Reading it finds exactly the whole
   * commands in it, in order, stops exactly where they end, and never meets an error.
   */
  lemma TornLog(log: seq<Command>, p: nat)
    requires AllWithinLimits(log) && p <= |EncodeAll(log)|
    ensures var n := WholeCommands(log, p);
            && |EncodeAll(log[..n])| <= p
            && ReadAll(EncodeAll(log)[..p], 0) ==
               Reading(log[..n], |EncodeAll(log[..n])|, if |EncodeAll(log[..n])| == p then AtEnd else Torn)
  {
    hide EncodeCommand, Parse, EncodeAll, ReadAll;
    var n := WholeCommands(log, p);
    WholeCommandsFit(log, p);
    var whole := log[..n];
    var torn := EncodeAll(log)[..p];
    var tail := torn[|EncodeAll(whole)|..];
    TornTail(log, n, p);
    assert torn == EncodeAll(whole) + tail;
    assert torn[0..] == torn;
    ReadWhole(torn, 0, whole, tail);
  }

  /** What is left after the whole commands is a proper prefix of the next one. */
  lemma TornTail(log: seq<Command>, n: nat, p: nat)
    requires AllWithinLimits(log) && n <= |log| && p <= |EncodeAll(log)|
    requires |EncodeAll(log[..n])| <= p && (n < |log| ==> p < |EncodeAll(log[..n + 1])|)
    ensures var whole := EncodeAll(log[..n]);
            && EncodeAll(log)[..p][..|whole|] == whole
            && (var tail := EncodeAll(log)[..p][|whole|..]; tail == "" || Parse(tail).Incomplete?)
  {
    hide EncodeCommand, Parse, EncodeAll, WithinLimits;
    var whole := EncodeAll(log[..n]);
    assert log == log[..n] + log[n..];
    EncodeAllAppend(log[..n], log[n..]);
    var bytes := EncodeAll(log);
    assert bytes[..p][..|whole|] == bytes[..|whole|] == whole;
    if n < |log| {
      var next := EncodeCommand(log[n]);
      EncodeAllFirst(log[n..]);
      assert log[..n + 1] == log[..n] + [log[n]];
      EncodeAllAppend(log[..n], [log[n]]);
      EncodeOne(log[n]);
      var tail := bytes[..p][|whole|..];
      assert tail == bytes[|whole|..p];
      assert bytes[|whole|..] == next + EncodeAll(log[n..][1..]);
      assert tail == next[..p - |whole|];
      EncodedPrefixIncomplete(log[n], p - |whole|);
    } else {
      assert log[..n] == log;
    }
  }

  /** The repaired file reads back whole, to the same commands. */
  lemma RepairedLog(log: seq<Command>, p: nat)
    requires AllWithinLimits(log) && p <= |EncodeAll(log)|
    ensures var n := WholeCommands(log, p);
            && |EncodeAll(log[..n])| <= p
            && EncodeAll(log)[..p][..|EncodeAll(log[..n])|] == EncodeAll(log[..n])
            && ReadAll(EncodeAll(log[..n]), 0) == Reading(log[..n], |EncodeAll(log[..n])|, AtEnd)
  {
    hide EncodeCommand, Parse, EncodeAll, ReadAll;
    var n := WholeCommands(log, p);
    WholeCommandsFit(log, p);
    TornTail(log, n, p);
    var whole := EncodeAll(log[..n]);
    assert whole[0..] == whole + "";
    ReadWhole(whole, 0, log[..n], "");
  }
}
