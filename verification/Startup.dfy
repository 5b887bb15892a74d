/** Starting from a log file, as src/tcp_server.cpp does with the load of src/aof.cpp. */
module Startup {
  import opened Keyspace
  import opened Resp
  import opened CommandSpec
  import opened Storage
  import opened Aof
  import opened Commands
  import opened Processor
  import opened Payload
  import opened Recovery

  // ---------------------------------------------------------------
  // Replay
  // ---------------------------------------------------------------

  /** The commands that are replayed: empty ones are skipped. */
  function NonBlank(commands: seq<Command>): (r: seq<Command>)
    ensures |r| <= |commands|
  {
    if commands == [] then []
    else
      var init, last := NonBlank(commands[..|commands| - 1]), commands[|commands| - 1];
      if last == [] then init else init + [last]
  }

  lemma {:induction false} NonBlankAppend(a: seq<Command>, b: seq<Command>)
    ensures NonBlank(a + b) == NonBlank(a) + NonBlank(b)
  {
    if b == [] {
      assert a + b == a;
    } else {
      assert (a + b)[..|a + b| - 1] == a + b[..|b| - 1];
      NonBlankAppend(a, b[..|b| - 1]);
    }
  }

  lemma NonBlankOne(c: Command)
    ensures NonBlank([c]) == if c == [] then [] else [c]
  {
    assert [c][..0] == [];
  }

  /** A command that does not set a memory limit. */
  predicate Unlimiting(c: Command) {
    LimitAfter(c, 0) == 0
  }

  /** No command sets a memory limit. */
  predicate Plain(commands: seq<Command>) {
    forall i :: 0 <= i < |commands| ==> Unlimiting(commands[i])
  }

  datatype LoadResult =
    | Loaded
    | BadData(position: nat, error: ProtocolError)
    | ReplayFailed(command: Command, reply: Reply)

  /** What replaying these commands at one time makes of a keyspace. */
  ghost function Replayed(ks: Keyspace, commands: seq<Command>, now: int): Keyspace {
    Redo(ks, Stamp(NonBlank(commands), now))
  }

  ghost predicate ReplaySucceeds(ks: Keyspace, commands: seq<Command>, now: int) {
    Succeeds(ks, Stamp(NonBlank(commands), now))
  }

  lemma StampAppend(a: seq<Command>, b: seq<Command>, now: int)
    ensures Stamp(a + b, now) == Stamp(a, now) + Stamp(b, now)
  {
  }

  /** Replaying one command more. */
  lemma ReplayOneMore(ks: Keyspace, done: seq<Command>, c: Command, rest: seq<Command>, now: int)
    ensures var sofar := Replayed(ks, done, now);
            && Replayed(ks, done + [c], now) == (if c == [] then sofar else RedoOne(sofar, Stamped(c, now)).ks)
            && (ReplaySucceeds(ks, done + [c], now) <==>
                ReplaySucceeds(ks, done, now) && (c == [] || !RedoOne(sofar, Stamped(c, now)).reply.Failure?))
            && (ReplaySucceeds(ks, done + [c] + rest, now) ==> ReplaySucceeds(ks, done + [c], now))
  {
    hide Redo, RedoOne, Succeeds, Stamp, NonBlank;
    var a, b := NonBlank(done), NonBlank([c]);
    NonBlankAppend(done, [c]);
    NonBlankAppend(done + [c], rest);
    NonBlankOne(c);
    StampAppend(a, b, now);
    StampAppend(a + b, NonBlank(rest), now);
    RedoAppend(ks, Stamp(a, now), Stamp(b, now));
    RedoAppend(ks, Stamp(a + b, now), Stamp(NonBlank(rest), now));
    StampSingle(c, now);
    RedoSingle(Redo(ks, Stamp(a, now)), Stamped(c, now));
    assert c == [] ==> Stamp(a, now) + Stamp([], now) == Stamp(a + b, now) && a + b == a;
  }

  /** One replayed command, as seen by the callback that `load` is given. */
  method ReplayCommand(replayer: CommandProcessor, command: Command, now: int)
    returns (reply: Reply, failed: bool)
    requires replayer.aof == null && replayer.Valid() && 0 <= now && AllProper(replayer.db.View(now))
    modifies replayer, replayer.db, replayer.db.lru
    ensures replayer.Valid() && AllProper(replayer.db.View(now))
    ensures Unlimiting(command) && old(replayer.db.memoryLimit) == 0 ==>
      && replayer.db.memoryLimit == 0
      && replayer.db.View(now) == RedoOne(old(replayer.db.View(now)), Stamped(command, now)).ks
      && (failed <==> RedoOne(old(replayer.db.View(now)), Stamped(command, now)).reply.Failure?)
    ensures failed <==> reply.Failure?
    ensures replayer.db.data.Keys <= old(replayer.db.data.Keys) + ToSet(command)
    ensures forall i :: 0 <= i < |replayer.db.lru| ==>
      replayer.db.lru[i] in old(replayer.db.lru) || fresh(replayer.db.lru[i])
  {
    hide Storage.Database.View, Storage.Database.Linked, Storage.Database.Accounted, Dispatch, Exec, ToSet;
    hide AllProper, StepKeyspace, StepEntries, Live, ReplyBytes;
    ghost var ks := replayer.db.View(now);
    ghost var step;
    var close;
    if replayer.db.memoryLimit == 0 && Unlimiting(command) {
      UnlimitedEvictsNothing(replayer, command);
    }
    reply, close, step := replayer.Execute(command, now);
    ErrorByFirstByte(reply, command);
    failed := ReplyBytes(reply, command)[0] == '-';
    StepIsProper(ks, step);
    if Unlimiting(command) && old(replayer.db.memoryLimit) == 0 {
      StepWithoutEviction(ks, step);
    }
  }

  /** Without a limit nothing is refused for memory and nothing is evicted. */
  lemma UnlimitedEvictsNothing(p: CommandProcessor, command: Command)
    requires p.db.memoryLimit == 0 && Unlimiting(command)
    ensures p.Evicts(command) == []
    ensures p.aof == null || !p.aof.writeFailed ==> !p.Refuses(command)
  {
    hide Dispatch, SettingOf;
    NoVictims(p.db);
  }

  lemma StepIsProper(ks: Keyspace, s: Step)
    requires AllProper(ks)
    ensures AllProper(StepKeyspace(ks, s))
  {
    hide StepKeyspace, AllProper;
    LogRedoesStep(ks, s);
  }

  /** Without eviction and without refusal, a step is the command itself. */
  lemma StepWithoutEviction(ks: Keyspace, s: Step)
    requires s.ran && s.evicted == []
    ensures AfterEviction(ks, s) == Live(ks, s.time)
    ensures StepKeyspace(ks, s) == RedoOne(ks, Stamped(s.arguments, s.time)).ks
  {
    hide Exec, Live;
    NothingRemoved(Live(ks, s.time));
  }

  /**
   * `load`: replays the file, command by command. A torn tail is cut off; bad data and
   * commands that fail stop the start. The file is otherwise left as it is.
   */
  method Load(aof: AppendOnlyFile, replayer: CommandProcessor, now: int) returns (r: LoadResult)
    requires aof.Valid() && aof.buffer == "" && aof.appended == []
    requires replayer.aof == null && replayer.Valid() && 0 <= now && AllProper(replayer.db.View(now))
    requires replayer.db.memoryLimit == 0
    modifies aof, replayer, replayer.db, replayer.db.lru
    ensures aof.Valid() && aof.buffer == "" && aof.appended == [] && aof.isOpen == old(aof.isOpen)
    ensures replayer.Valid() && AllProper(replayer.db.View(now))
    ensures var reading := ReadAll(old(aof.file), 0);
            && (r.Loaded? ==> !reading.stop.Corrupt?)
            && aof.file == (if r.Loaded? then old(aof.file)[..reading.end] else old(aof.file))
            && (Plain(reading.commands) ==>
                (r.Loaded? <==>
                 !reading.stop.Corrupt? && ReplaySucceeds(old(replayer.db.View(now)), reading.commands, now)))
            && (Plain(reading.commands) && r.Loaded? ==>
                replayer.db.View(now) == Replayed(old(replayer.db.View(now)), reading.commands, now))
            && (AllWithinLimits(reading.commands) && KeysFit(old(replayer.db.data.Keys)) && r.Loaded? ==>
                KeysFit(replayer.db.data.Keys))
    ensures forall i :: 0 <= i < |replayer.db.lru| ==>
      replayer.db.lru[i] in old(replayer.db.lru) || fresh(replayer.db.lru[i])
  {
    hide Storage.Database.View, Storage.Database.Linked, Storage.Database.Accounted, Unlimiting, RedoOne;
    hide AllProper, Parse, ReadAll, Replayed, ReplaySucceeds, Plain, Aof.AppendOnlyFile.Valid;
    hide ToSet, KeysFit, WithinLimits, AllWithinLimits;
    var contents := aof.file;
    ghost var start := replayer.db.View(now);
    ghost var all := ReadAll(contents, 0);
    var position := 0;
    ghost var done: seq<Command> := [];
    ReplayNothing(start, now);
    while position < |contents|
      invariant position <= |contents|
      invariant all.commands == done + ReadAll(contents, position).commands
      invariant all.end == ReadAll(contents, position).end && all.stop == ReadAll(contents, position).stop
      invariant aof.Valid() && aof.file == contents && aof.buffer == "" && aof.appended == []
      invariant aof.isOpen == old(aof.isOpen)
      invariant replayer.Valid() && AllProper(replayer.db.View(now))
      invariant Plain(done) ==>
        && replayer.db.memoryLimit == 0
        && replayer.db.View(now) == Replayed(start, done, now) && ReplaySucceeds(start, done, now)
      invariant AllWithinLimits(done) && KeysFit(old(replayer.db.data.Keys)) ==> KeysFit(replayer.db.data.Keys)
      invariant forall i :: 0 <= i < |replayer.db.lru| ==>
        replayer.db.lru[i] in old(replayer.db.lru) || fresh(replayer.db.lru[i])
      decreases |contents| - position
    {
      ReadNext(contents, position);
      var result := ParseRespCommand(contents[position..]);
      match result {
        case Incomplete =>
          assert all.commands == done;
          Truncate(aof, position);
          return Loaded;
        case Error(error) => return BadData(position, error);
        case Complete(arguments, consumed) =>
          ghost var rest := ReadAll(contents, position + consumed).commands;
          assert all.commands == done + [arguments] + rest;
          PlainPrefix(done, arguments, rest);
          LimitsPrefix(done, arguments);
          ReplayOneMore(start, done, arguments, rest, now);
          if arguments != [] {
            ghost var keys := replayer.db.data.Keys;
            var reply, failed := ReplayCommand(replayer, arguments, now);
            if WithinLimits(arguments) && KeysFit(keys) {
              KeysStayFit(keys, arguments, replayer.db.data.Keys);
            }
            if failed {
              return ReplayFailed(arguments, reply);
            }
          }
          done := done + [arguments];
          position := position + consumed;
      }
    }
    ReadNext(contents, position);
    assert all.commands == done;
    assert contents[..all.end] == contents;
    return Loaded;
  }

  method Truncate(aof: AppendOnlyFile, size: nat)
    requires aof.Valid() && aof.buffer == "" && aof.appended == [] && size <= |aof.file|
    modifies aof`file, aof`base
    ensures aof.Valid() && aof.file == old(aof.file)[..size]
  {
    aof.file := aof.file[..size];
    aof.base := aof.file;
    assert EncodeAll([]) == "";
    assert aof.file + "" == aof.file;
  }

  lemma ReplayNothing(ks: Keyspace, now: int)
    ensures Replayed(ks, [], now) == ks && ReplaySucceeds(ks, [], now)
  {
    assert Stamp([], now) == [];
  }

  lemma LimitsPrefix(done: seq<Command>, c: Command)
    ensures AllWithinLimits(done + [c]) ==> AllWithinLimits(done) && WithinLimits(c)
  {
    hide WithinLimits;
    var all := done + [c];
    if AllWithinLimits(all) {
      assert all[|done|] == c;
      forall i | 0 <= i < |done| ensures WithinLimits(done[i]) {
        assert done[i] == all[i];
      }
    }
  }

  lemma PlainPrefix(done: seq<Command>, c: Command, rest: seq<Command>)
    ensures Plain(done + [c] + rest) ==> Plain(done + [c])
    ensures Plain(done + [c]) ==> Plain(done) && Unlimiting(c)
  {
    hide Unlimiting;
    var all := done + [c];
    if Plain(all + rest) {
      forall i | 0 <= i < |all| ensures Unlimiting(all[i]) {
        assert all[i] == (all + rest)[i];
      }
    }
    if Plain(all) {
      assert all[|done|] == c;
      forall i | 0 <= i < |done| ensures Unlimiting(done[i]) {
        assert done[i] == all[i];
      }
    }
  }
}
