/** What a connection does with the bytes of whole commands: which are executed, and when it closes. */
module ConnectionLaws {
  import opened Text
  import opened Keyspace
  import opened Resp
  import opened CommandSpec
  import opened Storage
  import opened Aof
  import opened Processor
  import opened Payload
  import opened Recovery
  import opened Startup
  import opened Lifetime
  import opened Stream
  import opened Server
  import opened Names
  import opened KeyLaws
  import opened InlineLaws

  /** A connection that is open and has nothing pending. */
  predicate Idle<S>(s: Session<S>) {
    !s.closing && s.pending == "" && s.error == None
  }

  /** The bytes of a command are cut off whole, and what follows is left. */
  lemma OneCommand<S>(s: Session<S>, c: Command, rest: string, machine: Machine<S>)
    requires !s.closing && s.pending == "" && c != [] && WithinLimits(c)
    ensures var o := machine(s.state, c);
      Boundary(Receiving(s, EncodeCommand(c) + rest), machine) ==
      Boundary(s.(state := o.state, pending := rest, closing := o.close), machine)
  {
    hide Parse, EncodeCommand, WithinLimits, Boundary;
    var bytes := EncodeCommand(c) + rest;
    CommandRoundTrip(c, rest);
    assert "" + bytes == bytes;
    assert bytes[|EncodeCommand(c)|..] == rest;
    BoundaryStep(Receiving(s, bytes), machine);
  }

  /** A command typed as a line is cut off likewise; a line of white space does nothing. */
  lemma TypedLine<S>(s: Session<S>, words: seq<Word>, gaps: seq<string>, rest: string, machine: Machine<S>)
    requires Idle(s) && |words| == |gaps| && AllTypable(words) && Gaps(gaps, true)
    requires var line := Line(words, gaps, ""); '\n' !in line && (line != "" ==> line[0] != '*')
    ensures var c, bytes := Texts(words), Line(words, gaps, "") + "\r\n" + rest;
      Boundary(Receiving(s, bytes), machine) ==
      if c == [] then Boundary(s.(pending := rest), machine)
      else
        var o := machine(s.state, c);
        Boundary(s.(state := o.state, pending := rest, closing := o.close), machine)
  {
    hide Parse, Boundary, Line, Texts, AllTypable, Gaps;
    var line := Line(words, gaps, "") + "\r\n";
    LineParses(words, gaps);
    CompleteStable(line, rest);
    var bytes := line + rest;
    assert "" + bytes == bytes;
    assert bytes[|line|..] == rest;
    BoundaryStep(Receiving(s, bytes), machine);
  }

  /** An array of no elements does nothing either. */
  lemma EmptyArray<S>(s: Session<S>, rest: string, machine: Machine<S>)
    requires Idle(s)
    ensures Boundary(Receiving(s, "*0\r\n" + rest), machine) == Boundary(s.(pending := rest), machine)
  {
    hide Parse, Boundary;
    var bytes := "*0\r\n" + rest;
    NoElements(rest);
    assert "" + bytes == bytes;
    assert bytes[4..] == rest;
    BoundaryStep(Receiving(s, bytes), machine);
  }

  lemma NoElements(rest: string)
    ensures Parse("*0\r\n" + rest) == Complete([], 4)
  {
    hide FindCrlf, ParseInteger;
    IntegerRoundTrip(0);
    assert NatToText(0) == "0";
    HeaderLine("0", rest);
    assert "*" + "0" + "\r\n" + rest == "*0\r\n" + rest;
  }

  lemma NothingMore<S>(s: Session<S>, machine: Machine<S>)
    requires s.closing || s.pending == ""
    ensures Boundary(s, machine) == s && Finish(s) == s
  {
    hide Parse;
    EmptyIncomplete();
  }

  /** QUIT is answered, closes the connection, and leaves everything after it unread. */
  lemma QuitCloses(s: Session<Served>, c: Command, rest: string, clock: Clock)
    requires Idle(s) && Calls(c, "QUIT") && WithinLimits(c)
    ensures var r := Feed(s, EncodeCommand(c) + rest, Serving(clock));
      && r.closing && r.error == None && r.pending == rest
      && r.state.history == s.state.history + [c]
      && r.state.entries == s.state.entries
      && r.state.ks == Live(s.state.ks, clock(|s.state.history|))
      && r.state.output == s.state.output + "+OK\r\n"
      && r.state.plain == s.state.plain
  {
    hide Parse, EncodeCommand, WithinLimits, Boundary, Finish, Exec, Dispatch, Live;
    var now := clock(|s.state.history|);
    QuitAnswers(Live(s.state.ks, now), c, now);
    OneCommand(s, c, rest, Serving(clock));
    var o := Serving(clock)(s.state, c);
    OkBytes(c);
    assert s.state.entries + [] == s.state.entries;
    NothingMore(s.(state := o.state, pending := rest, closing := true), Serving(clock));
  }

  /** Any other command is executed and leaves the connection open. */
  lemma OthersStayOpen(s: Session<Served>, c: Command, rest: string, clock: Clock)
    requires Idle(s) && c != [] && !Calls(c, "QUIT") && WithinLimits(c)
    ensures Feed(s, EncodeCommand(c) + rest, Serving(clock)) ==
            Feed(s.(state := AfterOne(s.state, c, clock)), rest, Serving(clock))
  {
    hide Parse, EncodeCommand, WithinLimits, Boundary, Finish, Exec, HandlerOf, AfterOne;
    OneCommand(s, c, rest, Serving(clock));
    assert "" + rest == rest;
  }

  /** The commands, one after the other. */
  ghost function AfterAll(s: Served, cs: seq<Command>, clock: Clock): Served
    decreases |cs|
  {
    if cs == [] then s else AfterAll(AfterOne(s, cs[0], clock), cs[1..], clock)
  }

  lemma OneIsExecuted(s: Served, c: Command, clock: Clock)
    ensures AfterOne(s, c, clock).history == s.history + [c]
  {
    hide Exec, Live, ReplyBytes;
  }

  lemma {:induction false} AllAreExecuted(s: Served, cs: seq<Command>, clock: Clock)
    ensures AfterAll(s, cs, clock).history == s.history + cs
    decreases |cs|
  {
    hide AfterOne;
    if cs == [] {
      assert s.history + cs == s.history;
    } else {
      OneIsExecuted(s, cs[0], clock);
      AllAreExecuted(AfterOne(s, cs[0], clock), cs[1..], clock);
      assert s.history + [cs[0]] + cs[1..] == s.history + cs;
    }
  }

  /** A pipeline of commands, none of them QUIT, is executed as a whole and in order before what follows. */
  lemma {:induction false} PipelineIsServed(s: Session<Served>, cs: seq<Command>, rest: string, clock: Clock)
    requires Idle(s)
    requires forall i :: 0 <= i < |cs| ==> cs[i] != [] && !Calls(cs[i], "QUIT") && WithinLimits(cs[i])
    ensures Feed(s, EncodeAll(cs) + rest, Serving(clock)) ==
            Feed(s.(state := AfterAll(s.state, cs, clock)), rest, Serving(clock))
    decreases |cs|
  {
    hide EncodeCommand, WithinLimits, AfterOne, EncodeAll, Feed;
    if cs == [] {
      NoBytes(s, clock);
      assert EncodeAll([]) + rest == rest;
    } else {
      var tail := EncodeAll(cs[1..]) + rest;
      EncodeAllFirst(cs);
      assert EncodeAll(cs) + rest == EncodeCommand(cs[0]) + tail;
      OthersStayOpen(s, cs[0], tail, clock);
      PipelineIsServed(s.(state := AfterOne(s.state, cs[0], clock)), cs[1..], rest, clock);
    }
  }

  /** Commands, then QUIT, then anything: the commands and QUIT are executed, and nothing after it. */
  lemma NothingAfterQuit(s: Session<Served>, cs: seq<Command>, quit: Command, rest: string, clock: Clock)
    requires Idle(s) && Calls(quit, "QUIT") && WithinLimits(quit)
    requires forall i :: 0 <= i < |cs| ==> cs[i] != [] && !Calls(cs[i], "QUIT") && WithinLimits(cs[i])
    ensures var r := Feed(s, EncodeAll(cs) + (EncodeCommand(quit) + rest), Serving(clock));
      && r.closing && r.error == None && r.pending == rest
      && r.state.history == s.state.history + cs + [quit]
      && r.state.entries == AfterAll(s.state, cs, clock).entries
      && r.state.output == AfterAll(s.state, cs, clock).output + "+OK\r\n"
  {
    hide EncodeCommand, WithinLimits, AfterOne, EncodeAll, Feed, Serving, Live;
    PipelineIsServed(s, cs, EncodeCommand(quit) + rest, clock);
    AllAreExecuted(s.state, cs, clock);
    QuitCloses(s.(state := AfterAll(s.state, cs, clock)), quit, rest, clock);
  }

  lemma NoBytes(s: Session<Served>, clock: Clock)
    requires Idle(s)
    ensures EncodeAll([]) == "" && Feed(s, "", Serving(clock)) == s
  {
    hide Parse, Serving;
    NothingMore(s, Serving(clock));
  }

  // ---------------------------------------------------------------
  // On the real connection
  // ---------------------------------------------------------------

  /** A chunk that starts with QUIT, on an idle connection. */
  method ReceiveQuit(p: CommandProcessor, client: Client, c: Command, rest: string, clock: Clock, executed: nat,
                     ghost log: seq<Stamped>, ghost at: int, ghost s: Session<Served>)
    returns (count: nat, ghost longer: seq<Stamped>, ghost until: int)
    requires InStep(p, log, at) && Monotone(clock) && at <= clock(executed)
    requires client.Valid() && Reflects(p, client, s, executed, clock) && Idle(s) && client.input == ""
    requires Calls(c, "QUIT") && WithinLimits(c) && |EncodeCommand(c) + rest| <= READ_LIMIT
    modifies p, p.db, p.db.lru, p.aof, client`input, client`output, client`replies, client`commands,
      client`closeAfterWrite
    ensures client.Valid() && client.closeAfterWrite && client.input == rest
    ensures client.commands == old(client.commands) + [c] && count == executed + 1
    ensures s.state.unlimited ==>
      p.aof.appended == old(p.aof.appended) && (s.state.plain ==> client.replies == old(client.replies) + "+OK\r\n")
  {
    hide InStep, Parse, Live, Serving, Storage.Database.View, EncodeCommand, Feed, WithinLimits;
    EmptyIncomplete();
    QuitCloses(s, c, rest, clock);
    QuitIsUnlimiting(s, c, rest, clock);
    assert s.state.output + "" == s.state.output;
    assert s.state.output + "+OK\r\n" + "" == s.state.output + "+OK\r\n";
    count, longer, until := Receive(p, client, EncodeCommand(c) + rest, clock, executed, log, at, s);
  }

  lemma QuitIsUnlimiting(s: Session<Served>, c: Command, rest: string, clock: Clock)
    requires Idle(s) && Calls(c, "QUIT") && WithinLimits(c)
    ensures Feed(s, EncodeCommand(c) + rest, Serving(clock)).state.unlimited == s.state.unlimited
  {
    hide Parse, EncodeCommand, WithinLimits, Boundary, Finish, Exec, Live;
    OneCommand(s, c, rest, Serving(clock));
    var o := Serving(clock)(s.state, c);
    NothingMore(s.(state := o.state, pending := rest, closing := true), Serving(clock));
  }

  /** A chunk that is one command other than QUIT, on an idle connection. */
  method ReceiveCommand(p: CommandProcessor, client: Client, c: Command, clock: Clock, executed: nat,
                        ghost log: seq<Stamped>, ghost at: int, ghost s: Session<Served>)
    returns (count: nat, ghost longer: seq<Stamped>, ghost until: int)
    requires InStep(p, log, at) && Monotone(clock) && at <= clock(executed)
    requires client.Valid() && Reflects(p, client, s, executed, clock) && Idle(s) && client.input == ""
    requires c != [] && !Calls(c, "QUIT") && WithinLimits(c) && |EncodeCommand(c)| <= READ_LIMIT
    modifies p, p.db, p.db.lru, p.aof, client`input, client`output, client`replies, client`commands,
      client`closeAfterWrite
    ensures client.Valid() && !client.closeAfterWrite && client.input == ""
    ensures client.commands == old(client.commands) + [c] && count == executed + 1
    ensures var e := Exec(Live(s.state.ks, clock(executed)), c, clock(executed));
      s.state.unlimited && Unlimiting(c) ==>
        && p.aof.appended == old(p.aof.appended) + e.log
        && (s.state.plain && !e.reply.Unspecified? ==>
            client.replies == old(client.replies) + ReplyBytes(e.reply, c))
  {
    hide InStep, Parse, Live, Serving, Storage.Database.View, EncodeCommand, Feed, WithinLimits, Exec;
    hide ReplyBytes, LimitAfter;
    EmptyIncomplete();
    assert s.state.output + "" == s.state.output;
    ghost var e := Exec(Live(s.state.ks, clock(executed)), c, clock(executed));
    assert !e.reply.Unspecified? ==> var sent := s.state.output + ReplyBytes(e.reply, c); sent + "" == sent;
    OthersStayOpen(s, c, "", clock);
    NoBytes(s.(state := AfterOne(s.state, c, clock)), clock);
    assert EncodeCommand(c) + "" == EncodeCommand(c);
    count, longer, until := Receive(p, client, EncodeCommand(c), clock, executed, log, at, s);
  }

  // ---------------------------------------------------------------
  // Malformed input
  // ---------------------------------------------------------------

  /** Malformed bytes at the front close the connection with that error, and nothing is executed. */
  lemma MalformedCloses<S>(s: Session<S>, bytes: string, error: ProtocolError, machine: Machine<S>)
    requires Idle(s) && Parse(bytes) == Error(error)
    ensures Feed(s, bytes, machine) == s.(pending := bytes, closing := true, error := Some(error))
  {
    hide Parse;
    assert "" + bytes == bytes;
    BoundaryStep(Receiving(s, bytes), machine);
  }

  /** A chunk that is malformed from its first byte, on an idle connection. */
  method ReceiveMalformed(p: CommandProcessor, client: Client, bytes: string, error: ProtocolError, clock: Clock,
                          executed: nat, ghost log: seq<Stamped>, ghost at: int, ghost s: Session<Served>)
    returns (count: nat, ghost longer: seq<Stamped>, ghost until: int)
    requires InStep(p, log, at) && Monotone(clock) && at <= clock(executed)
    requires client.Valid() && Reflects(p, client, s, executed, clock) && Idle(s) && client.input == ""
    requires Parse(bytes) == Error(error) && |bytes| <= READ_LIMIT
    modifies p, p.db, p.db.lru, p.aof, client`input, client`output, client`replies, client`commands,
      client`closeAfterWrite
    ensures client.Valid() && client.closeAfterWrite && client.input == bytes
    ensures client.commands == old(client.commands) && count == executed
    ensures s.state.unlimited ==>
      && p.aof.appended == old(p.aof.appended)
      && p.db.View(clock(executed)) == old(p.db.View(clock(executed)))
      && (s.state.plain ==> client.replies == old(client.replies) + ("-ERR " + Describe(error) + "\r\n"))
  {
    hide InStep, Parse, Live, Serving, Storage.Database.View, Feed, WithinLimits, Describe;
    EmptyIncomplete();
    MalformedCloses(s, bytes, error, Serving(clock));
    assert s.state.output + "" == s.state.output;
    count, longer, until := Receive(p, client, bytes, clock, executed, log, at, s);
  }

  /** A line without a line break in it is found whole. */
  lemma HeaderLine(line: string, rest: string)
    requires forall i :: 0 <= i < |line| ==> line[i] != '\r'
    ensures var b := "*" + line + "\r\n" + rest; FindCrlf(b, 1) == Some(|line| + 1) && b[1..|line| + 1] == line
  {
    hide FindCrlf;
    var b := "*" + line + "\r\n" + rest;
    assert forall i :: 0 <= i < |line| ==> b[i + 1] == line[i];
    assert b[|line| + 1] == '\r' && b[|line| + 2] == '\n';
    FoundAt(b, 1, |line| + 1);
  }

  lemma FoundAt(b: string, from: nat, at: nat)
    requires from <= at && CrlfAt(b, at) && forall i :: from <= i < at ==> b[i] != '\r'
    ensures FindCrlf(b, from) == Some(at)
  {
  }

  /** An array whose length is not a number, is negative, or is more than 1048576. */
  lemma BadArrayLength(line: string, rest: string)
    requires forall i :: 0 <= i < |line| ==> line[i] != '\r'
    requires ParseInteger(line).None? || ParseInteger(line).value < 0 || ParseInteger(line).value > 1_048_576
    ensures Parse("*" + line + "\r\n" + rest) == Error(InvalidArrayLength)
  {
    hide ParseInteger, FindCrlf, ReadBulks;
    HeaderLine(line, rest);
  }

  /** An element that is not a bulk string. */
  lemma BadElement(n: nat, rest: string)
    requires 0 < n <= 1_048_576 && rest != "" && rest[0] != '$'
    ensures Parse("*" + NatToText(n) + "\r\n" + rest) == Error(ExpectedBulkString)
  {
    hide ParseInteger, FindCrlf, NatToText;
    IntegerRoundTrip(n);
    var b := "*" + NatToText(n) + "\r\n" + rest;
    HeaderLine(NatToText(n), rest);
    assert b[|NatToText(n)| + 3] == rest[0];
  }

  /** A bulk string whose length is not a number, is negative, or is more than 512 MiB. */
  lemma BadBulkLength(n: nat, line: string, rest: string)
    requires 0 < n <= 1_048_576 && forall i :: 0 <= i < |line| ==> line[i] != '\r'
    requires ParseInteger(line).None? || ParseInteger(line).value < 0 || ParseInteger(line).value > 536_870_912
    ensures Parse("*" + NatToText(n) + "\r\n" + ("$" + line + "\r\n" + rest)) == Error(InvalidBulkLength)
  {
    hide ParseInteger, FindCrlf, NatToText;
    IntegerRoundTrip(n);
    var inner := "$" + line + "\r\n" + rest;
    var b := "*" + NatToText(n) + "\r\n" + inner;
    HeaderLine(NatToText(n), inner);
    var at := |NatToText(n)| + 3;
    assert b[at..] == inner;
    assert forall i :: 0 <= i < |line| ==> b[at + 1 + i] == line[i];
    assert b[at] == '$' && b[at + 1 + |line|] == '\r' && b[at + 2 + |line|] == '\n';
    FoundAt(b, at + 1, at + 1 + |line|);
    assert b[at + 1..at + 1 + |line|] == line;
  }

  /** What follows the header of a command array. */
  lemma AfterHeader(n: nat, inner: string)
    requires 0 < n <= 1_048_576 && ReadBulk("*" + NatToText(n) + "\r\n" + inner, |NatToText(n)| + 3).Malformed?
    ensures var b := "*" + NatToText(n) + "\r\n" + inner;
      Parse(b) == Error(ReadBulk(b, |NatToText(n)| + 3).error)
  {
    hide ParseInteger, FindCrlf, NatToText, ReadBulk;
    IntegerRoundTrip(n);
    HeaderLine(NatToText(n), inner);
  }

  /** Bytes that do not end where they should. */
  lemma Unterminated(b: string, pos: nat, text: string, rest: string)
    requires |text| <= 536_870_912 && |rest| >= 2 && !CrlfAt(rest, 0)
    requires At(b, pos, "$" + (NatToText(|text|) + CRLF + (text + rest)))
    ensures ReadBulk(b, pos) == Malformed(MissingCrlf)
  {
    hide ParseInteger, FindCrlf, NatToText, At;
    var number := NatToText(|text|) + CRLF;
    AtSplit(b, pos, "$", number + (text + rest));
    AtFirst(b, pos, "$");
    AtSplit(b, pos + 1, number, text + rest);
    NumberLine(b, pos + 1, |text|);
    AtSplit(b, pos + 1 + |number|, text, rest);
    TwoMore(b, pos + 1 + |number| + |text|, rest);
  }

  lemma TwoMore(b: string, pos: nat, rest: string)
    requires |rest| >= 2 && !CrlfAt(rest, 0) && At(b, pos, rest)
    ensures pos + 2 <= |b| && !CrlfAt(b, pos)
  {
    assert b[pos + 0] == rest[0] && b[pos + 1] == rest[1];
  }

  /** The announced bytes are there, but what stands after them is not a line break. */
  lemma BadTerminator(n: nat, text: string, rest: string)
    requires 0 < n <= 1_048_576 && |text| <= 536_870_912 && |rest| >= 2 && !CrlfAt(rest, 0)
    ensures Parse("*" + NatToText(n) + "\r\n" + ("$" + (NatToText(|text|) + "\r\n" + (text + rest)))) ==
            Error(MissingCrlf)
  {
    hide Parse, NatToText, ReadBulk;
    var inner := "$" + (NatToText(|text|) + CRLF + (text + rest));
    var b := "*" + NatToText(n) + "\r\n" + inner;
    assert At(b, |NatToText(n)| + 3, inner);
    Unterminated(b, |NatToText(n)| + 3, text, rest);
    AfterHeader(n, inner);
  }
}
