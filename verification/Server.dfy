/**
 * The event loop of src/tcp_server.cpp around one connection: bytes in, commands executed on
 * the store, entries in the log, replies out.
 */
module Server {
  import opened Text
  import opened Values
  import opened Keyspace
  import opened Resp
  import opened CommandSpec
  import opened CommandFacts
  import opened Storage
  import opened Aof
  import opened Processor
  import opened Payload
  import opened Recovery
  import opened Startup
  import opened Lifetime
  import opened Stream
  import opened SystemCalls

  /**
   * The server as a machine: the commands executed so far, the unexpired keyspace, the log
   * entries and the bytes of the replies. `unlimited` says that no memory limit has
   * been in force, `plain` that no reply was about more than the unexpired keyspace.
   */
  datatype Served = Served(
    history: seq<Command>, ks: Keyspace, entries: seq<Command>, output: string, unlimited: bool, plain: bool)

  /** The n-th command runs at time `clock(n)`. */
  type Clock = nat -> int

  ghost predicate Monotone(clock: Clock) {
    clock(0) >= 0 && forall m, n :: 0 <= m <= n ==> clock(m) <= clock(n)
  }

  ghost function AfterOne(s: Served, c: Command, clock: Clock): Served {
    var now := clock(|s.history|);
    var e := Exec(Live(s.ks, now), c, now);
    Served(
      s.history + [c], e.ks, s.entries + e.log,
      if e.reply.Unspecified? then s.output else s.output + ReplyBytes(e.reply, c),
      s.unlimited && Unlimiting(c), s.plain && !e.reply.Unspecified?)
  }

  ghost function Serving(clock: Clock): Machine<Served> {
    (s, c) => Outcome(AfterOne(s, c, clock), Dispatch(c).Quit?)
  }

  function ErrorText(error: Option<ProtocolError>): string {
    if error.None? then "" else ErrorReply(error.value)
  }

  /** The commands executed are what the machine says; so are store, log and replies, as far as it says. */
  ghost predicate Reflects(p: CommandProcessor, client: Client, r: Session<Served>, executed: nat, clock: Clock)
    reads p, p.db, p.db.data.Values, p.aof, client
  {
    && p.aof != null && (r.error.Some? ==> r.closing)
    && client.commands == r.state.history && executed == |client.commands|
    && client.closeAfterWrite == r.closing
    && (r.state.unlimited ==>
        && p.db.memoryLimit == 0 && !p.aof.writeFailed
        && p.db.View(clock(executed)) == Live(r.state.ks, clock(executed))
        && p.aof.appended == r.state.entries)
    && (r.state.unlimited && r.state.plain ==> client.replies == r.state.output + ErrorText(r.error))
  }

  /** Executes one command and answers it. */
  method ExecuteOne(p: CommandProcessor, client: Client, arguments: Command, clock: Clock, executed: nat,
                    ghost log: seq<Stamped>, ghost at: int, ghost s: Session<Served>)
    returns (ghost longer: seq<Stamped>)
    requires InStep(p, log, at) && Monotone(clock) && at <= clock(executed)
    requires client.Valid() && Reflects(p, client, s, executed, clock) && !s.closing
    requires arguments != [] && WithinLimits(arguments)
    modifies p, p.db, p.db.lru, p.aof, client`output, client`replies, client`commands, client`closeAfterWrite
    ensures InStep(p, longer, clock(executed)) && log <= longer
    ensures client.Valid()
    ensures var outcome := Serving(clock)(s.state, arguments);
      Reflects(p, client, s.(state := outcome.state, closing := outcome.close), executed + 1, clock)
    ensures forall i :: 0 <= i < |p.db.lru| ==> p.db.lru[i] in old(p.db.lru) || fresh(p.db.lru[i])
  {
    hide InStep, Storage.Database.View, StepLog, StepKeyspace, StepEntries, Answers, Live, Dispatch;
    hide LimitAfter;
    hide ReplyBytes, Exec;
    hide Processor.CommandProcessor.Evicts, Processor.CommandProcessor.Refuses;
    var now := clock(executed);
    ghost var ks, reason := p.db.View(now), p.RefusalReason();
    if p.db.memoryLimit == 0 && !p.aof.writeFailed && Unlimiting(arguments) {
      UnlimitedEvictsNothing(p, arguments);
    }
    var reply, close, step := Serve(p, arguments, now, log, at);
    longer := log + StepLog(ks, step);
    if s.state.unlimited && Unlimiting(arguments) {
      StepServes(ks, s.state, step, reply, reason, clock);
      ViewLater(p.db, now, clock(executed + 1));
      assert Monotone(clock) && 0 <= executed <= executed + 1;
    }
    client.commands := client.commands + [arguments];
    client.Answer(ReplyBytes(reply, arguments));
    if close {
      client.closeAfterWrite := true;
    }
  }

  /** A step without eviction is what the machine does. */
  lemma StepServes(ks: Keyspace, s: Served, step: Step, reply: Reply, reason: Problem, clock: Clock)
    requires step.ran && step.evicted == [] && step.time == clock(|s.history|) && ks == Live(s.ks, step.time)
    requires Answers(ks, step, reply, reason)
    ensures var next := AfterOne(s, step.arguments, clock);
      && StepKeyspace(ks, step) == next.ks && s.entries + StepEntries(ks, step) == next.entries
      && (next.plain ==> !reply.Unspecified? && s.output + ReplyBytes(reply, step.arguments) == next.output)
  {
    hide Exec, Live, ReplyBytes;
    LiveTwice(s.ks, step.time, step.time);
    NothingRemoved(Live(ks, step.time));
    StepWithoutEviction(ks, step);
  }

  /** The input waits for more bytes, unless the connection is closing. */
  predicate Settled(client: Client)
    reads client
  {
    client.closeAfterWrite || Parse(client.input).Incomplete?
  }

  /** The last `arrived` bytes are new, few enough for one event, and the others wait for them. */
  predicate JustArrived(input: string, arrived: nat) {
    arrived <= |input| && arrived <= READ_LIMIT && Parse(input[..|input| - arrived]).Incomplete?
  }

  lemma RestArrived(input: string, arrived: nat)
    requires JustArrived(input, arrived) && Parse(input).Complete?
    ensures WithinLimits(Parse(input).arguments)
    ensures var rest := input[Parse(input).consumed..]; JustArrived(rest, |rest|)
  {
    hide WithinLimits;
    DeliveredWithinLimits(input, arrived);
    var rest := input[Parse(input).consumed..];
    assert rest[..0] == "";
    EmptyIncomplete();
  }

  /** One turn of processInput, on the bytes still pending: nothing is consumed when there is nothing left to do. */
  method ServeNext(p: CommandProcessor, client: Client, pending: string, clock: Clock, executed: nat,
                   ghost arrived: nat, ghost log: seq<Stamped>, ghost at: int, ghost s: Session<Served>)
    returns (consumed: nat, count: nat, ghost longer: seq<Stamped>, ghost until: int)
    requires InStep(p, log, at) && Monotone(clock) && at <= clock(executed)
    requires client.Valid() && Reflects(p, client, s, executed, clock) && s.pending == pending && !s.closing
    requires JustArrived(pending, arrived)
    modifies p, p.db, p.db.lru, p.aof, client`output, client`replies, client`commands, client`closeAfterWrite
    ensures InStep(p, longer, until) && log <= longer && until <= clock(count)
    ensures client.Valid()
    ensures match Parse(pending)
      case Complete(arguments, n) =>
        consumed == n && Reflects(p, client, Dispatched(s, Serving(clock), arguments, n), count, clock)
      case _ => consumed == 0 && Reflects(p, client, Finish(s), count, clock)
    ensures forall i :: 0 <= i < |p.db.lru| ==> p.db.lru[i] in old(p.db.lru) || fresh(p.db.lru[i])
  {
    hide InStep, Parse, WithinLimits, Describe, Live, Exec, ReplyBytes, Storage.Database.View, JustArrived;
    consumed, count, longer, until := 0, executed, log, at;
    var result := ParseRespCommand(pending);
    if result.Error? {
      client.Answer(ErrorReply(result.error));
      client.closeAfterWrite := true;
      assert s.state.output + "" == s.state.output;
    } else if result.Complete? {
      consumed := result.consumed;
      if result.arguments != [] {
        RestArrived(pending, arrived);
        longer := ExecuteOne(p, client, result.arguments, clock, executed, log, at, s);
        until, count := clock(executed), executed + 1;
      }
    }
  }

  /** processInput: the input is consumed by an offset and erased once, at the end. */
  method ProcessInput(p: CommandProcessor, client: Client, clock: Clock, executed: nat, ghost arrived: nat,
                      ghost log: seq<Stamped>, ghost at: int, ghost s: Session<Served>)
    returns (count: nat, ghost longer: seq<Stamped>, ghost until: int)
    requires InStep(p, log, at) && Monotone(clock) && at <= clock(executed)
    requires client.Valid() && Reflects(p, client, s, executed, clock) && s.pending == client.input
    requires client.closeAfterWrite || JustArrived(client.input, arrived)
    modifies p, p.db, p.db.lru, p.aof, client`input, client`output, client`replies, client`commands,
      client`closeAfterWrite
    ensures InStep(p, longer, until) && log <= longer && until <= clock(count)
    ensures client.Valid() && Settled(client)
    ensures var r := Finish(Boundary(s, Serving(clock)));
      Reflects(p, client, r, count, clock) && client.input == r.pending
    ensures forall i :: 0 <= i < |p.db.lru| ==> p.db.lru[i] in old(p.db.lru) || fresh(p.db.lru[i])
  {
    hide InStep, Parse, Boundary, JustArrived, WithinLimits, Describe, Live, Exec, ReplyBytes;
    hide Storage.Database.View, Serving, AfterOne, ErrorText, Monotone;
    var consumed: nat := 0;
    ghost var left: nat, cur := arrived, s;
    count, longer, until := executed, log, at;
    EmptyIncomplete();
    assert client.input[0..] == client.input;
    var done := false;
    while !client.closeAfterWrite && consumed < |client.input| && !done
      invariant consumed <= |client.input| && client.input == old(client.input)
      invariant InStep(p, longer, until) && log <= longer && until <= clock(count)
      invariant client.Valid() && Reflects(p, client, cur, count, clock) && cur.pending == client.input[consumed..]
      invariant client.closeAfterWrite || JustArrived(client.input[consumed..], left)
      invariant done ==> cur.closing || Parse(cur.pending).Incomplete?
      invariant Finish(Boundary(s, Serving(clock))) == Finish(Boundary(cur, Serving(clock)))
      invariant forall i :: 0 <= i < |p.db.lru| ==> p.db.lru[i] in old(p.db.lru) || fresh(p.db.lru[i])
      decreases |client.input| - consumed, !done
    {
      BoundaryStep(cur, Serving(clock));
      var n;
      n, count, longer, until := ServeNext(
        p, client, client.input[consumed..], clock, count, left, longer, until, cur);
      if n == 0 {
        done := true;
        cur := Finish(cur);
        BoundaryStep(cur, Serving(clock));
      } else {
        RestArrived(cur.pending, left);
        cur := Dispatched(cur, Serving(clock), Parse(cur.pending).arguments, n);
        assert client.input[consumed..][n..] == client.input[consumed + n..];
        consumed := consumed + n;
        left := |client.input| - consumed;
      }
    }
    BoundaryStep(cur, Serving(clock));
    client.input := client.input[consumed..];
  }

  /** A chunk arrives, no larger than one event reads, and is processed as far as it goes. */
  method Receive(p: CommandProcessor, client: Client, chunk: string, clock: Clock, executed: nat,
                 ghost log: seq<Stamped>, ghost at: int, ghost s: Session<Served>)
    returns (count: nat, ghost longer: seq<Stamped>, ghost until: int)
    requires InStep(p, log, at) && Monotone(clock) && at <= clock(executed)
    requires client.Valid() && Reflects(p, client, s, executed, clock) && s.pending == client.input
    requires Settled(client) && |chunk| <= READ_LIMIT
    modifies p, p.db, p.db.lru, p.aof, client`input, client`output, client`replies, client`commands,
      client`closeAfterWrite
    ensures InStep(p, longer, until) && log <= longer && until <= clock(count)
    ensures client.Valid() && Settled(client)
    ensures var r := Feed(s, chunk, Serving(clock));
      Reflects(p, client, r, count, clock) && client.input == r.pending
    ensures forall i :: 0 <= i < |p.db.lru| ==> p.db.lru[i] in old(p.db.lru) || fresh(p.db.lru[i])
  {
    hide InStep, Parse, Boundary, Finish, Live, Serving, Storage.Database.View;
    assert (client.input + chunk)[..|client.input|] == client.input;
    client.input := client.input + chunk;
    count, longer, until := ProcessInput(p, client, clock, executed, |chunk|, log, at, Receiving(s, chunk));
  }

  /**
   * A stream arrives in chunks. If none of its inline lines is too long, then the store, the
   * log, the replies, the number of commands executed and the state of the connection are
   * those that the whole stream would have led to in one piece.
   */
  method ReceiveAll(p: CommandProcessor, client: Client, chunks: seq<string>, clock: Clock, executed: nat,
                    ghost log: seq<Stamped>, ghost at: int, ghost s: Session<Served>)
    returns (count: nat, ghost longer: seq<Stamped>, ghost until: int)
    requires InStep(p, log, at) && Monotone(clock) && at <= clock(executed)
    requires client.Valid() && Reflects(p, client, s, executed, clock) && s.pending == client.input
    requires Settled(client) && chunks != [] && forall i :: 0 <= i < |chunks| ==> |chunks[i]| <= READ_LIMIT
    modifies p, p.db, p.db.lru, p.aof, client`input, client`output, client`replies, client`commands,
      client`closeAfterWrite
    ensures InStep(p, longer, until) && log <= longer && until <= clock(count)
    ensures client.Valid() && Settled(client)
    ensures var r := FeedAll(s, chunks, Serving(clock));
      Reflects(p, client, r, count, clock) && client.input == r.pending
    ensures LinesFit(Receiving(s, Flat(chunks)), Serving(clock)) ==>
      var r := Feed(s, Flat(chunks), Serving(clock));
      Reflects(p, client, r, count, clock) && client.input == r.pending
    ensures forall i :: 0 <= i < |p.db.lru| ==> p.db.lru[i] in old(p.db.lru) || fresh(p.db.lru[i])
  {
    hide InStep, Parse, Feed, LinesFit, Live, Serving, Storage.Database.View;
    count, longer, until := executed, log, at;
    ghost var cur := s;
    if LinesFit(Receiving(s, Flat(chunks)), Serving(clock)) {
      AnyChunks(s, chunks, Serving(clock));
    }
    assert chunks[0..] == chunks;
    for i := 0 to |chunks|
      invariant InStep(p, longer, until) && log <= longer && until <= clock(count)
      invariant client.Valid() && Settled(client)
      invariant Reflects(p, client, cur, count, clock) && cur.pending == client.input
      invariant FeedAll(s, chunks, Serving(clock)) == FeedAll(cur, chunks[i..], Serving(clock))
      invariant forall i :: 0 <= i < |p.db.lru| ==> p.db.lru[i] in old(p.db.lru) || fresh(p.db.lru[i])
    {
      assert chunks[i..][1..] == chunks[i + 1..];
      ghost var before := cur;
      cur := Feed(cur, chunks[i], Serving(clock));
      count, longer, until := Receive(p, client, chunks[i], clock, count, longer, until, before);
    }
  }

  // ---------------------------------------------------------------
  // After a restart
  // ---------------------------------------------------------------

  /** A new connection to a server that holds these keys and has logged nothing yet. */
  function Connected(ks: Keyspace, unlimited: bool): Session<Served> {
    Session(Served([], ks, [], "", unlimited, true), "", false, None)
  }

  /**
   * A server starts from what a crash left of its file, and a stream arrives. If the start
   * succeeds, the stream acts on what the replay of the entries left has made; what it logs
   * comes after those entries, and the whole is again a log that a start can read.
   */
  method RestartAndReceive(contents: string, maxMemory: nat, policy: EvictionPolicy, port: nat, chunks: seq<string>,
                           clock: Clock, ghost log: seq<Stamped>, ghost cut: nat)
    returns (result: LoadResult, p: CommandProcessor, client: Client, count: nat, ghost longer: seq<Stamped>,
             ghost until: int)
    requires Monotone(clock) && WellFormed(log, clock(0)) && AllWithinLimits(CommandsOf(log))
    requires cut <= |EncodeAll(CommandsOf(log))| && contents == EncodeAll(CommandsOf(log))[..cut]
    requires chunks != [] && forall i :: 0 <= i < |chunks| ==> |chunks[i]| <= READ_LIMIT
    ensures p.aof != null && fresh(p) && fresh(client)
    ensures var kept := Restamped(log[..WholeCommands(CommandsOf(log), cut)], clock(0));
      && (result.Loaded? <==> Succeeds(map[], kept))
      && (result.Loaded? ==>
          var start := Connected(Redo(map[], kept), maxMemory == 0);
          && InStep(p, longer, until) && kept <= longer && until <= clock(count)
          && Reflects(p, client, FeedAll(start, chunks, Serving(clock)), count, clock)
          && (LinesFit(Receiving(start, Flat(chunks)), Serving(clock)) ==>
              Reflects(p, client, Feed(start, Flat(chunks), Serving(clock)), count, clock)))
  {
    hide InStep, Parse, Feed, FeedAll, LinesFit, Live, Serving, Storage.Database.View, EncodeAll, CommandsOf, Redo;
    hide Succeeds, WellFormed, AllWithinLimits, Restamped, AllHarmless;
    client := new Client();
    EmptyIncomplete();
    count := 0;
    result, p := Restart(contents, maxMemory, policy, port, clock(0), log, cut);
    ghost var kept := Restamped(log[..WholeCommands(CommandsOf(log), cut)], clock(0));
    longer, until := kept, clock(0);
    if result.Loaded? {
      FreshView(p.db, clock(0));
      ghost var start := Connected(p.db.View(clock(0)), maxMemory == 0);
      count, longer, until := ReceiveAll(p, client, chunks, clock, 0, kept, clock(0), start);
    }
  }

  // ---------------------------------------------------------------
  // Replies and the log
  // ---------------------------------------------------------------

  /** The bytes that a send gets out, if the system answers with these responses. */
  ghost function Sends(client: Client, responses: seq<Response>): nat
    requires client.outputOffset <= |client.output|
    reads client
  {
    Offer(|client.Pending()|, 0, responses).count
  }

  /**
   * The end of handleClientEvents: the log is flushed, and whether or not that worked the
   * replies are sent. When bytes leave, every appended entry is in the file if and only if
   * the flush succeeded; so the replies keep behind the log exactly when the flush succeeds
   * or nothing is sent.
   */
  method FlushAndReply(aof: AppendOnlyFile, client: Client, writes: seq<Response>, sends: seq<Response>)
    returns (flushed: bool, keep: bool)
    requires aof.Valid() && client.Valid() && client.Pending() != ""
    modifies aof`file, aof`buffer, aof`needsSync, aof`writeFailed, client`output, client`outputOffset, client`sent
    ensures aof.Valid() && client.Valid()
    ensures flushed <==> old(aof.Writes(writes)).stop.Done?
    ensures aof.file == old(aof.file) + old(aof.buffer)[..old(aof.Writes(writes)).count]
    ensures client.sent == old(client.sent) + old(client.Pending())[..old(Sends(client, sends))]
    ensures aof.file == aof.base + EncodeAll(aof.appended) <==> flushed
    ensures (client.sent != old(client.sent) ==> aof.file == aof.base + EncodeAll(aof.appended))
            <==> flushed || old(Sends(client, sends)) == 0
  {
    hide EncodeAll, Offer;
    flushed := aof.Flush(writes);
    ghost var sent, pending, n := client.sent, client.Pending(), Sends(client, sends);
    keep := client.WriteToClient(sends);
    assert sent + pending[..n] == sent <==> n == 0 by {
      assert |sent + pending[..n]| == |sent| + n;
    }
  }

  /** SET on an empty store is let through, logged as it came and answered with OK. */
  lemma FirstSet(key: string, value: string, step: Step, reply: Reply, reason: Problem)
    requires step.arguments == SetEntry(key, value) && step.ran && step.evicted == []
    requires Answers(map[], step, reply, reason)
    ensures reply == Reply.Ok && StepEntries(map[], step) == [SetEntry(key, value)]
  {
    hide Exec, Canonical, SetEntry, Live;
    SetEntryOp(key, value);
    var empty: Keyspace := map[];
    assert Live(empty, step.time) == empty by { LiveKeys(empty, step.time); }
    NothingRemoved(empty);
    CanonicalExec(empty, SetEntry(key, value), step.time);
    assert [SetEntry(key, value)] + [] == [SetEntry(key, value)];
    assert [] + [SetEntry(key, value)] == [SetEntry(key, value)];
  }

  lemma SetIsUnlimiting(key: string, value: string)
    ensures Unlimiting(SetEntry(key, value)) && SetEntry(key, value) != []
  {
    hide Canonical, Unlimiting;
    SetEntryOp(key, value);
    CanonicalReplays(SetEntry(key, value));
  }

  /** A new server executes one SET; its entry and its reply are both still buffered. */
  method ServeFirstSet(key: string, value: string, port: nat) returns (p: CommandProcessor, client: Client)
    ensures fresh(p) && fresh(client) && p.aof != null && fresh(p.aof) && p.aof.Valid() && p.aof.isOpen
    ensures p.aof.file == p.aof.base == "" && p.aof.appended == [SetEntry(key, value)] && p.aof.buffer != ""
    ensures client.Valid() && client.sent == "" && client.replies == "+OK\r\n"
  {
    hide Storage.Database.View, Storage.Database.Linked, Storage.Database.Accounted, LimitAfter, EncodeAll;
    hide SetEntry, AllProper, Unlimiting, Answers, StepEntries, StepKeyspace, ReplyBytes;
    hide Processor.CommandProcessor.Evicts, Processor.CommandProcessor.Refuses, EncodeCommand;
    var db := new Database();
    EmptyView(db, 500);
    var aof := new AppendOnlyFile("");
    aof.Open();
    p := new CommandProcessor(db, aof, port);
    client := new Client();
    SetIsUnlimiting(key, value);
    UnlimitedEvictsNothing(p, SetEntry(key, value));
    ghost var reason := p.RefusalReason();
    ghost var step;
    var reply, close;
    reply, close, step := p.Execute(SetEntry(key, value), 500);
    FirstSet(key, value, step, reply, reason);
    EncodeOne(SetEntry(key, value));
    assert [] + [SetEntry(key, value)] == [SetEntry(key, value)];
    OkBytes(SetEntry(key, value));
    client.Answer(ReplyBytes(reply, SetEntry(key, value)));
  }

  lemma OkBytes(arguments: Command)
    ensures ReplyBytes(Reply.Ok, arguments) == "+OK\r\n"
  {
  }

  /**
   * The reply to a command can leave before the command is in the file: one SET, a write
   * that takes nothing, and a send that takes everything.
   */
  method RepliesOvertakeLog(key: string, value: string, port: nat)
    returns (p: CommandProcessor, client: Client, flushed: bool)
    ensures p.aof != null && p.aof.Valid() && !flushed
    ensures p.aof.appended == [SetEntry(key, value)] && p.aof.file == ""
    ensures client.Valid() && client.sent == client.replies == "+OK\r\n"
  {
    hide SetEntry, EncodeAll;
    p, client := ServeFirstSet(key, value, port);
    assert "" + client.Pending() == client.Pending();
    var keep;
    flushed, keep := FlushAndReply(p.aof, client, [Took(0)], []);
  }
}
