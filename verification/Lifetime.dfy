/**
 * What keeps a server and its log in step: commands, expiry, writes of the log, and starts
 * from what a crash left. Throughout, the store is what the log says.
 */
module Lifetime {
  import opened Values
  import opened Keyspace
  import opened Resp
  import opened CommandSpec
  import opened CommandFacts
  import opened Storage
  import opened Aof
  import opened Commands
  import opened Processor
  import opened Recovery
  import opened Startup
  import opened SystemCalls

  /** The log, redone entry by entry at the times it was written, gives the unexpired keyspace. */
  ghost predicate Tracks(ks: Keyspace, log: seq<Stamped>, clock: int) {
    AllProper(ks) && WellFormed(log, clock) && Succeeds(map[], log) && Live(Redo(map[], log), clock) == ks
  }

  /** Store, file and buffer all agree with one log, whose entries a restart can read. */
  ghost predicate InStep(p: CommandProcessor, log: seq<Stamped>, clock: int)
    reads p, p.db, p.db.lru, p.aof
  {
    && p.Valid() && p.aof != null && 0 <= clock
    && Tracks(p.db.View(clock), log, clock)
    && p.aof.base + EncodeAll(p.aof.appended) == EncodeAll(CommandsOf(log))
    && AllWithinLimits(CommandsOf(log)) && KeysFit(p.db.data.Keys)
  }

  /** Time passes. */
  lemma TracksLater(ks: Keyspace, log: seq<Stamped>, clock: int, now: int)
    requires Tracks(ks, log, clock) && clock <= now
    ensures Tracks(Live(ks, now), log, now)
  {
    hide Canonical, Redo, Succeeds;
    LiveTwice(Redo(map[], log), clock, now);
  }

  lemma StepLogWellFormed(log: seq<Stamped>, clock: int, ks: Keyspace, s: Step)
    requires WellFormed(log, clock) && clock <= s.time
    ensures WellFormed(log + StepLog(ks, s), s.time)
  {
    hide Canonical, Exec;
    var more := StepLog(ks, s);
    StepLogTimes(ks, s);
    LogIsCanonical(AfterEviction(ks, s), s.arguments, s.time);
    forall i | 0 <= i < |more| ensures Canonical(more[i].command) {
      if i < |s.evicted| {
        DelEntryOp(s.evicted[i]);
      }
    }
  }

  /** A step of the store, and what it logs. */
  lemma TracksStep(ks: Keyspace, log: seq<Stamped>, clock: int, s: Step)
    requires Tracks(ks, log, clock) && clock <= s.time
    ensures Tracks(StepKeyspace(Live(ks, s.time), s), log + StepLog(Live(ks, s.time), s), s.time)
  {
    hide Redo, Succeeds, StepLog, StepKeyspace, WellFormed, Live, AllProper, Fresh;
    var live := Live(ks, s.time);
    TracksLater(ks, log, clock, s.time);
    LiveTwice(ks, s.time, s.time);
    StepLogWellFormed(log, clock, live, s);
    StepAgrees(live, log, s);
  }

  lemma ViewLater(db: Database, clock: int, now: int)
    requires clock <= now
    ensures Live(db.View(clock), now) == db.View(now)
  {
    LiveTwice(db.Contents(), clock, now);
  }

  lemma EncodeStep(base: string, appended: seq<Command>, log: seq<Stamped>, ks: Keyspace, s: Step)
    requires base + EncodeAll(appended) == EncodeAll(CommandsOf(log))
    ensures base + EncodeAll(appended + StepEntries(ks, s)) == EncodeAll(CommandsOf(log + StepLog(ks, s)))
  {
    hide EncodeAll, StepEntries, StepLog;
    var entries := StepEntries(ks, s);
    StepLogIsStamped(ks, s);
    assert CommandsOf(log + Stamp(entries, s.time)) == CommandsOf(log) + entries;
    EncodeAllAppend(appended, entries);
    EncodeAllAppend(CommandsOf(log), entries);
    assert base + (EncodeAll(appended) + EncodeAll(entries)) == base + EncodeAll(appended) + EncodeAll(entries);
  }

  /** Executing a command keeps everything in step; the log grows by what the step logs. */
  method Serve(p: CommandProcessor, arguments: Command, now: int, ghost log: seq<Stamped>, ghost clock: int)
    returns (reply: Reply, close: bool, ghost step: Step)
    requires InStep(p, log, clock) && clock <= now && WithinLimits(arguments)
    modifies p, p.db, p.db.lru, p.aof
    ensures step.arguments == arguments && step.time == now
    ensures InStep(p, log + StepLog(old(p.db.View(now)), step), now)
    ensures p.db.View(now) == StepKeyspace(old(p.db.View(now)), step)
    ensures p.aof.appended == old(p.aof.appended) + StepEntries(old(p.db.View(now)), step)
    ensures Answers(old(p.db.View(now)), step, reply, old(p.RefusalReason()))
    ensures !reply.Unspecified? && (close <==> Dispatch(arguments).Quit?)
    ensures step.evicted == old(p.Evicts(arguments)) && (step.ran <==> !old(p.Refuses(arguments)))
    ensures p.db.memoryLimit == LimitAfter(arguments, old(p.db.memoryLimit))
    ensures p.db.policy == PolicyAfter(arguments, old(p.db.policy))
    ensures p.aof.writeFailed == old(p.aof.writeFailed) && p.aof.isOpen == old(p.aof.isOpen)
    ensures p.aof.file == old(p.aof.file)
    ensures forall i :: 0 <= i < |p.db.lru| ==> p.db.lru[i] in old(p.db.lru) || fresh(p.db.lru[i])
  {
    hide Storage.Database.View, Storage.Database.Linked, Storage.Database.Accounted, Tracks, StepKeyspace;
    hide StepLog, StepEntries, EncodeAll, CommandsOf, Dispatch, Answers;
    hide ToSet, AllWithinLimits, WithinLimits, KeysFit, Processor.CommandProcessor.Evicts;
    hide Processor.CommandProcessor.Refuses;
    ghost var before, ks := p.db.View(clock), p.db.View(now);
    ViewLater(p.db, clock, now);
    TracksLater(before, log, clock, now);
    assert AllProper(ks) by { TracksProper(ks, log, now); }
    reply, close, step := p.Execute(arguments, now);
    TracksStep(before, log, clock, step);
    EncodeStep(old(p.aof.base), old(p.aof.appended), log, ks, step);
    StepWithinLimits(log, ks, step, old(p.db.data.Keys));
    KeysStayFit(old(p.db.data.Keys), arguments, p.db.data.Keys);
  }

  /** What a step logs is within the limits if the command and the stored keys are. */
  lemma StepWithinLimits(log: seq<Stamped>, ks: Keyspace, s: Step, keys: set<string>)
    requires AllWithinLimits(CommandsOf(log)) && WithinLimits(s.arguments)
    requires KeysFit(keys) && ToSet(s.evicted) <= keys
    ensures AllWithinLimits(CommandsOf(log + StepLog(ks, s)))
  {
    hide Exec, AfterEviction, WithinLimits, StepLog;
    var entries, evicted := StepEntries(ks, s), |s.evicted|;
    StepLogIsStamped(ks, s);
    LogWithinLimits(AfterEviction(ks, s), s.arguments, s.time);
    forall i | 0 <= i < |entries| ensures WithinLimits(entries[i]) {
      if i < evicted {
        assert s.evicted[i] in ToSet(s.evicted);
        DelWithinLimits(s.evicted[i]);
      }
    }
    assert CommandsOf(log + Stamp(entries, s.time)) == CommandsOf(log) + entries;
  }

  lemma DelWithinLimits(key: string)
    requires |key| <= MAX_BULK_SIZE
    ensures WithinLimits(DelEntry(key))
  {
  }

  lemma TracksProper(ks: Keyspace, log: seq<Stamped>, clock: int)
    requires Tracks(ks, log, clock)
    ensures AllProper(ks)
  {
  }

  /** Active expiry logs nothing and needs to log nothing. */
  method ExpireSome(p: CommandProcessor, samplesPerLoop: nat, timed: bool, now: int,
                    ghost log: seq<Stamped>, ghost clock: int)
    requires InStep(p, log, clock) && clock <= now
    modifies p.db, p.db.lru
    ensures InStep(p, log, now)
    ensures p.db.View(now) == old(p.db.View(now))
    ensures p.db.memoryLimit == old(p.db.memoryLimit) && p.db.policy == old(p.db.policy)
    ensures forall i :: 0 <= i < |p.db.lru| ==> p.db.lru[i] in old(p.db.lru)
  {
    hide Storage.Database.View, Storage.Database.Linked, Storage.Database.Accounted, Tracks, EncodeAll;
    hide CommandsOf, Aof.AppendOnlyFile.Valid;
    ViewLater(p.db, clock, now);
    TracksLater(p.db.View(clock), log, clock, now);
    var _ := p.db.ActiveExpireCycle(samplesPerLoop, timed, now);
  }

  /** Writing the log out, as far as the system lets it, keeps everything in step. */
  method FlushLog(p: CommandProcessor, responses: seq<Response>, ghost log: seq<Stamped>, ghost clock: int)
    returns (ok: bool)
    requires InStep(p, log, clock)
    modifies p.aof
    ensures InStep(p, log, clock)
    ensures ok <==> p.aof.file == EncodeAll(CommandsOf(log))
    ensures !ok ==> p.aof.file <= EncodeAll(CommandsOf(log))
    ensures ok <==> old(p.aof.Writes(responses)).stop.Done?
    ensures |p.aof.file| == |old(p.aof.file)| + old(p.aof.Writes(responses)).count
    ensures p.aof.isOpen == old(p.aof.isOpen) && (p.aof.isOpen ==> p.aof.writeFailed == !ok)
  {
    hide Storage.Database.View, Storage.Database.Linked, Storage.Database.Accounted, Tracks, EncodeAll;
    hide CommandsOf;
    hide AllWithinLimits, KeysFit, Offer;
    ok := p.aof.Flush(responses);
  }

  // ---------------------------------------------------------------
  // Crash and restart
  // ---------------------------------------------------------------

  lemma CanonicalReplays(c: Command)
    requires Canonical(c)
    ensures c != [] && Unlimiting(c)
  {
    hide PlanWrite, HandlerOf, SettingOf;
  }

  /** Log entries are all replayed, and none changes the configuration. */
  lemma {:induction false} LogReplays(log: seq<Stamped>, later: int)
    requires WellFormed(log, later)
    ensures NonBlank(CommandsOf(log)) == CommandsOf(log)
    decreases |log|
  {
    hide Canonical, Unlimiting;
    if log != [] {
      var init := log[..|log| - 1];
      LogReplays(init, later);
      CanonicalReplays(log[|log| - 1].command);
      assert CommandsOf(log)[..|log| - 1] == CommandsOf(init);
      assert CommandsOf(log) == CommandsOf(init) + [log[|log| - 1].command];
    }
  }

  lemma LogIsPlain(log: seq<Stamped>, later: int)
    requires WellFormed(log, later)
    ensures Plain(CommandsOf(log))
  {
    hide Canonical, Unlimiting;
    forall i | 0 <= i < |log| ensures Unlimiting(CommandsOf(log)[i]) {
      CanonicalReplays(log[i].command);
    }
  }

  lemma WellFormedPrefix(log: seq<Stamped>, n: nat, later: int)
    requires WellFormed(log, later) && n <= |log|
    ensures WellFormed(log[..n], later) && WellFormed(Restamped(log[..n], later), later)
    ensures CommandsOf(log)[..n] == CommandsOf(log[..n]) == CommandsOf(Restamped(log[..n], later))
    ensures Stamp(CommandsOf(log[..n]), later) == Restamped(log[..n], later)
  {
    hide Canonical;
  }

  /** Replaying what the file holds is redoing that part of the log at the restart. */
  lemma ReplayIsRedo(log: seq<Stamped>, n: nat, later: int)
    requires WellFormed(log, later) && n <= |log|
    ensures var commands := CommandsOf(log[..n]);
            && Plain(commands)
            && Replayed(map[], commands, later) == Redo(map[], Restamped(log[..n], later))
            && (ReplaySucceeds(map[], commands, later) <==> Succeeds(map[], Restamped(log[..n], later)))
  {
    hide Redo, Succeeds, WellFormed, Plain, NonBlank, CommandsOf, Restamped, Stamp;
    WellFormedPrefix(log, n, later);
    LogReplays(log[..n], later);
    LogIsPlain(log[..n], later);
  }

  /** If no entry is harmful, every prefix of the log replays to what the live store held after it. */
  lemma PrefixRecovers(log: seq<Stamped>, n: nat, later: int)
    requires WellFormed(log, later) && n <= |log|
    requires AllHarmless(log, |log|, later) && Succeeds(map[], log)
    ensures Succeeds(map[], Restamped(log[..n], later))
    ensures Redo(map[], Restamped(log[..n], later)) == Live(Redo(map[], log[..n]), later)
  {
    hide Redo, Succeeds, WellFormed, Harmless, Restamped, Live;
    assert AllHarmless(log, n, later);
    hide AllHarmless;
    assert log == log[..n] + log[n..];
    RedoAppend(map[], log[..n], log[n..]);
    RecoversUpTo(log, later, n);
    assert Recovers(log[..n], later);
  }

  lemma RestartInStep(ks: Keyspace, log: seq<Stamped>, n: nat, later: int)
    requires WellFormed(log, later) && n <= |log| && AllProper(ks) && Live(ks, later) == ks
    requires ks == Redo(map[], Restamped(log[..n], later)) && Succeeds(map[], Restamped(log[..n], later))
    ensures Tracks(ks, Restamped(log[..n], later), later)
    ensures CommandsOf(Restamped(log[..n], later)) == CommandsOf(log[..n])
    ensures EncodeAll(CommandsOf(log[..n])) + EncodeAll([]) == EncodeAll(CommandsOf(Restamped(log[..n], later)))
  {
    hide Redo, Succeeds, WellFormed, AllProper, Restamped, CommandsOf, EncodeCommand;
    WellFormedPrefix(log, n, later);
    assert EncodeAll([]) == "";
  }

  /**
   * Recovery from a crash at any byte of the file. Reading the file finds the whole
   * entries and where they end; replaying them redoes that part of the log at the time of
   * the start; and if no entry is harmful that succeeds and gives what the live store held.
   */
  lemma CrashPoint(log: seq<Stamped>, cut: nat, now: int) returns (n: nat)
    requires WellFormed(log, now) && AllWithinLimits(CommandsOf(log)) && cut <= |EncodeAll(CommandsOf(log))|
    ensures n == WholeCommands(CommandsOf(log), cut)
    ensures var contents := EncodeAll(CommandsOf(log))[..cut];
            var reading := ReadAll(contents, 0);
            && !reading.stop.Corrupt? && Plain(reading.commands)
            && reading.commands == CommandsOf(log[..n]) && AllWithinLimits(reading.commands)
            && contents[..reading.end] == EncodeAll(CommandsOf(log[..n]))
            && Replayed(map[], reading.commands, now) == Redo(map[], Restamped(log[..n], now))
            && (ReplaySucceeds(map[], reading.commands, now) <==> Succeeds(map[], Restamped(log[..n], now)))
    ensures AllHarmless(log, |log|, now) && Succeeds(map[], log) ==>
            && Succeeds(map[], Restamped(log[..n], now))
            && Redo(map[], Restamped(log[..n], now)) == Live(Redo(map[], log[..n]), now)
  {
    hide EncodeAll, CommandsOf, Restamped, WellFormed, AllHarmless, Redo, Succeeds, ReadAll, Plain;
    hide AllWithinLimits, Replayed, ReplaySucceeds, Live;
    n := WholeCommands(CommandsOf(log), cut);
    TornLog(CommandsOf(log), cut);
    RepairedLog(CommandsOf(log), cut);
    WellFormedPrefix(log, n, now);
    ReplayIsRedo(log, n, now);
    LimitsOfPrefix(CommandsOf(log), n);
    if AllHarmless(log, |log|, now) && Succeeds(map[], log) {
      PrefixRecovers(log, n, now);
    }
  }

  lemma LimitsOfPrefix(commands: seq<Command>, n: nat)
    requires AllWithinLimits(commands) && n <= |commands|
    ensures AllWithinLimits(commands[..n])
  {
    hide WithinLimits;
  }

  /**
   * A start from what a crash left of the log file: any byte prefix. The start succeeds
   * exactly when the whole entries in it replay without error; the file is then cut to
   * exactly those entries, and the new server is in step with them as a log that was
   * written at the time of the start, ready to run, crash and start again. If no entry of
   * the log is harmful, the start succeeds and the store holds what the live store held
   * after those entries, less what has expired since.
   */
  method Restart(contents: string, maxMemory: nat, policy: EvictionPolicy, port: nat, now: int,
                 ghost log: seq<Stamped>, ghost cut: nat)
    returns (result: LoadResult, p: CommandProcessor)
    requires 0 <= now && WellFormed(log, now) && AllWithinLimits(CommandsOf(log))
    requires cut <= |EncodeAll(CommandsOf(log))| && contents == EncodeAll(CommandsOf(log))[..cut]
    ensures p.aof != null && fresh(p) && fresh(p.db) && fresh(p.aof)
    ensures forall i :: 0 <= i < |p.db.lru| ==> fresh(p.db.lru[i])
    ensures var n := WholeCommands(CommandsOf(log), cut);
            && (result.Loaded? <==> Succeeds(map[], Restamped(log[..n], now)))
            && (result.Loaded? ==>
                && InStep(p, Restamped(log[..n], now), now)
                && p.aof.file == EncodeAll(CommandsOf(log[..n])) && p.aof.isOpen
                && p.aof.appended == [] && !p.aof.writeFailed
                && p.db.View(now) == Redo(map[], Restamped(log[..n], now))
                && p.db.memoryLimit == maxMemory && p.db.policy == policy)
            && (AllHarmless(log, |log|, now) && Succeeds(map[], log) ==>
                result.Loaded? && p.db.View(now) == Live(Redo(map[], log[..n]), now))
  {
    hide Storage.Database.View, Storage.Database.Linked, Storage.Database.Accounted, Tracks, EncodeAll;
    hide CommandsOf, Restamped, WellFormed, AllHarmless, Redo, Succeeds, ReadAll, Plain, AllWithinLimits;
    hide Replayed, ReplaySucceeds, Live, AllProper, Aof.AppendOnlyFile.Valid, KeysFit;
    ghost var n := CrashPoint(log, cut, now);
    result, p := StartServer(contents, maxMemory, policy, port, now);
    if result.Loaded? {
      FreshView(p.db, now);
      RestartInStep(p.db.View(now), log, n, now);
    }
  }

  /** The start of the server on any file; limits are applied after the replay, so loading never evicts. */
  method StartServer(contents: string, maxMemory: nat, policy: EvictionPolicy, port: nat, now: int)
    returns (result: LoadResult, p: CommandProcessor)
    requires 0 <= now
    ensures fresh(p) && fresh(p.db) && p.Valid() && AllProper(p.db.View(now))
    ensures forall i :: 0 <= i < |p.db.lru| ==> fresh(p.db.lru[i])
    ensures p.aof != null && fresh(p.aof) && p.aof.appended == [] && p.aof.buffer == "" && p.aof.base == p.aof.file
    ensures !p.aof.writeFailed
    ensures result.Loaded? ==> p.aof.isOpen && p.db.memoryLimit == maxMemory && p.db.policy == policy
    ensures var reading := ReadAll(contents, 0);
            && p.aof.file == (if result.Loaded? then contents[..reading.end] else contents)
            && (Plain(reading.commands) ==>
                (result.Loaded? <==> !reading.stop.Corrupt? && ReplaySucceeds(map[], reading.commands, now)))
            && (Plain(reading.commands) && result.Loaded? ==>
                p.db.View(now) == Replayed(map[], reading.commands, now))
            && (AllWithinLimits(reading.commands) && result.Loaded? ==> KeysFit(p.db.data.Keys))
  {
    hide Storage.Database.View, Storage.Database.Linked, Storage.Database.Accounted, ReadAll, Plain, Replayed;
    hide ReplaySucceeds, AllProper, Aof.AppendOnlyFile.Valid, AllWithinLimits, KeysFit;
    var db, aof;
    result, db, aof := LoadStore(contents, port, now);
    if result.Loaded? {
      aof.Open();
      db.memoryLimit := maxMemory;
      db.policy := policy;
    }
    p := new CommandProcessor(db, aof, port);
  }

  /** The part before the limits are applied: an empty store, and the replay of the file into it. */
  method LoadStore(contents: string, port: nat, now: int)
    returns (result: LoadResult, db: Database, aof: AppendOnlyFile)
    requires 0 <= now
    ensures fresh(db) && fresh(aof) && db.Valid() && aof.Valid() && AllProper(db.View(now))
    ensures forall i :: 0 <= i < |db.lru| ==> fresh(db.lru[i])
    ensures aof.appended == [] && aof.buffer == "" && aof.base == aof.file && !aof.writeFailed
    ensures var reading := ReadAll(contents, 0);
            && aof.file == (if result.Loaded? then contents[..reading.end] else contents)
            && (Plain(reading.commands) ==>
                (result.Loaded? <==> !reading.stop.Corrupt? && ReplaySucceeds(map[], reading.commands, now)))
            && (Plain(reading.commands) && result.Loaded? ==>
                db.View(now) == Replayed(map[], reading.commands, now))
            && (AllWithinLimits(reading.commands) && result.Loaded? ==> KeysFit(db.data.Keys))
  {
    hide Storage.Database.View, Storage.Database.Linked, Storage.Database.Accounted, ReadAll, Plain, Replayed;
    hide ReplaySucceeds, AllProper, Aof.AppendOnlyFile.Valid, AllWithinLimits;
    db := new Database();
    assert KeysFit(db.data.Keys);
    hide KeysFit;
    EmptyView(db, now);
    aof := new AppendOnlyFile(contents);
    var replayer := new CommandProcessor(db, null, port);
    result := Load(aof, replayer, now);
    BaseIsFile(aof);
  }

  lemma EmptyView(db: Database, now: int)
    requires db.Contents() == map[]
    ensures db.View(now) == map[] && AllProper(db.View(now))
  {
  }

  lemma BaseIsFile(aof: AppendOnlyFile)
    requires aof.Valid() && aof.buffer == "" && aof.appended == []
    ensures aof.base == aof.file && !aof.writeFailed
  {
    assert EncodeAll([]) == "";
    assert aof.file + "" == aof.file;
    assert aof.base + "" == aof.base;
  }

  /** What a file holds is a prefix of the log, and the log can be read by a later start. */
  lemma CrashedFile(p: CommandProcessor, log: seq<Stamped>, clock: int, now: int)
    requires InStep(p, log, clock) && clock <= now
    ensures p.aof.file <= EncodeAll(CommandsOf(log)) && WellFormed(log, now) && AllWithinLimits(CommandsOf(log))
    ensures 0 <= now
  {
    hide Canonical, Redo, Succeeds, EncodeAll, AllWithinLimits, KeysFit;
    assert p.aof.file + p.aof.buffer == EncodeAll(CommandsOf(log));
  }
}
