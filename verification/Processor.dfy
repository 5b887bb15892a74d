/** CommandProcessor::execute of src/commands.cpp: dispatch, refusal, eviction before writes, and the log. */
module Processor {
  import opened Text
  import opened Values
  import opened Keyspace
  import opened Resp
  import opened CommandSpec
  import opened CommandFacts
  import opened Storage
  import opened Aof
  import opened Commands
  import opened Queries
  import opened Recovery
  import Glob

  // ---------------------------------------------------------------
  // Eviction and CONFIG
  // ---------------------------------------------------------------

  /** Evicts if need be; the victims leave the unexpired keyspace and nothing else does. */
  method MakeRoom(db: Database, ghost now: int) returns (withinLimit: bool, evicted: seq<string>)
    requires db.Valid()
    modifies db, db.lru
    ensures db.Valid() && db.memoryLimit == old(db.memoryLimit) && db.policy == old(db.policy)
    ensures evicted == old(db.Victims(db.memoryLimit))
    ensures db.View(now) == old(db.View(now)) - ToSet(evicted)
    ensures db.memoryUsed <= old(db.memoryUsed)
    ensures withinLimit <==> db.memoryLimit == 0 || db.memoryUsed <= db.memoryLimit
    ensures withinLimit <==> !(db.policy == NoEviction && 0 < db.memoryLimit < old(db.memoryUsed))
    ensures db.data.Keys <= old(db.data.Keys) && ToSet(evicted) <= old(db.data.Keys)
    ensures forall i :: 0 <= i < |db.lru| ==> db.lru[i] in old(db.lru)
  {
    hide Storage.Database.Contents, Storage.Database.Linked, Storage.Database.Accounted;
    hide Storage.Database.Victims;
    hide Live, Usages, TailFirst, KeptCount;
    ghost var kept;
    ghost var before := db.Contents();
    NoVictims(db);
    withinLimit, evicted, kept := db.EvictIfNeeded();
    LiveMinusAll(before, ToSet(evicted), now);
  }

  lemma NoVictims(db: Database)
    ensures db.policy == NoEviction || db.memoryLimit == 0 ==> db.Victims(db.memoryLimit) == []
    ensures db.Victims(0) == []
  {
  }

  /** The parameters that CONFIG GET knows. */
  function Parameters(limit: nat, policy: EvictionPolicy, logging: bool, port: nat): seq<(string, string)> {
    [ ("maxmemory", NatToText(limit)),
      ("maxmemory-policy", if policy == AllKeysLru then "allkeys-lru" else "noeviction"),
      ("appendonly", if logging then "yes" else "no"),
      ("port", NatToText(port)),
      ("save", "") ]
  }

  /** Names and values of the parameters whose name matches, in order. */
  ghost function Selected(parameters: seq<(string, string)>, pattern: string): seq<string> {
    if parameters == [] then []
    else
      var (name, value) := parameters[|parameters| - 1];
      Selected(parameters[..|parameters| - 1], pattern)
        + if Glob.Matches(pattern, 0, name, 0) then [name, value] else []
  }

  /** CONFIG GET. */
  method SelectParameters(parameters: seq<(string, string)>, pattern: string) returns (values: seq<string>)
    ensures values == Selected(parameters, pattern)
  {
    hide Glob.Matches;
    values := [];
    for i := 0 to |parameters|
      invariant values == Selected(parameters[..i], pattern)
    {
      assert parameters[..i + 1][..i] == parameters[..i];
      var matching := Glob.GlobMatch(pattern, parameters[i].0);
      if matching {
        values := values + [parameters[i].0, parameters[i].1];
      }
    }
    assert parameters[..|parameters|] == parameters;
  }

  /** CONFIG SET maxmemory evicts at once; no other form of CONFIG touches a key. */
  method RunConfig(db: Database, logging: bool, port: nat, arguments: Command, ghost now: int)
    returns (reply: Reply, evicted: seq<string>)
    requires |arguments| >= 2
    requires db.Valid()
    modifies db, db.lru
    ensures db.Valid()
    ensures db.View(now) == old(db.View(now)) - ToSet(evicted)
    ensures db.memoryUsed <= old(db.memoryUsed)
    ensures match SettingOf(arguments)
      case Limit(bytes) =>
        && reply == Reply.Ok && db.memoryLimit == bytes && db.policy == old(db.policy)
        && evicted == old(db.Victims(bytes))
        && (bytes == 0 || db.memoryUsed <= bytes <==> !(db.policy == NoEviction && 0 < bytes < old(db.memoryUsed)))
      case Policy(policy) =>
        reply == Reply.Ok && db.policy == policy && db.memoryLimit == old(db.memoryLimit) && evicted == []
      case Listed =>
        && reply == Strings(Selected(Parameters(db.memoryLimit, db.policy, logging, port), Lower(arguments[2])))
        && db.memoryLimit == old(db.memoryLimit) && db.policy == old(db.policy) && evicted == []
      case Wrong(problem) =>
        && reply == Failure(problem)
        && db.memoryLimit == old(db.memoryLimit) && db.policy == old(db.policy) && evicted == []
    ensures db.data.Keys <= old(db.data.Keys) && ToSet(evicted) <= old(db.data.Keys)
    ensures !reply.Unspecified?
    ensures forall i :: 0 <= i < |db.lru| ==> db.lru[i] in old(db.lru)
  {
    hide Storage.Database.View, Storage.Database.Linked, Storage.Database.Accounted, Storage.Database.Victims;
    hide ParseMemorySize, Parameters, Selected;
    evicted := [];
    NothingRemoved(db.View(now));
    match SettingOf(arguments)
    case Limit(bytes) =>
      db.memoryLimit := bytes;
      assert db.View(now) == old(db.View(now));
      var _, victims := MakeRoom(db, now);
      return Reply.Ok, victims;
    case Policy(policy) =>
      db.policy := policy;
      return Reply.Ok, [];
    case Listed =>
      var values := SelectParameters(Parameters(db.memoryLimit, db.policy, logging, port), Lower(arguments[2]));
      return Strings(values), [];
    case Wrong(problem) => return Failure(problem), [];
  }

  // ---------------------------------------------------------------
  // The processor
  // ---------------------------------------------------------------

  class CommandProcessor {
    const db: Database
    /** Null while a log is replayed, so that it is not logged again. */
    const aof: AppendOnlyFile?
    const port: nat
    var totalCommands: nat

    constructor (db: Database, aof: AppendOnlyFile?, port: nat)
      ensures this.db == db && this.aof == aof && this.port == port && totalCommands == 0
    {
      this.db, this.aof, this.port, totalCommands := db, aof, port, 0;
    }

    ghost predicate Valid()
      reads this, db, db.lru, aof
    {
      db.Valid() && (aof != null ==> aof.Valid())
    }

    method Propagate(entries: seq<Command>)
      requires aof != null ==> aof.Valid()
      modifies aof
      ensures aof != null ==>
        aof.Valid() && aof.appended == old(aof.appended) + entries
        && aof.base == old(aof.base) && aof.file == old(aof.file)
        && aof.writeFailed == old(aof.writeFailed) && aof.isOpen == old(aof.isOpen)
    {
      hide Aof.AppendOnlyFile.Valid, EncodeCommand;
      if aof == null {
        return;
      }
      assert entries[..0] == [];
      for i := 0 to |entries|
        invariant aof.Valid() && aof.appended == old(aof.appended) + entries[..i]
        invariant aof.base == old(aof.base) && aof.file == old(aof.file)
        invariant aof.writeFailed == old(aof.writeFailed) && aof.isOpen == old(aof.isOpen)
      {
        assert entries[..i + 1] == entries[..i] + [entries[i]];
        aof.Append(entries[i]);
      }
      assert entries[..|entries|] == entries;
    }

    /** A command of any kind. `evicted` and `ran` say what it came to. */
    method Execute(arguments: Command, now: int) returns (reply: Reply, close: bool, ghost step: Step)
      requires Valid() && 0 <= now && AllProper(db.View(now))
      modifies this, db, db.lru, aof
      ensures Valid() && step.arguments == arguments && step.time == now
      ensures totalCommands == old(totalCommands) + (if arguments == [] then 0 else 1)
      ensures db.View(now) == StepKeyspace(old(db.View(now)), step)
      ensures aof != null ==> Logged(old(aof.appended), StepEntries(old(db.View(now)), step))
      ensures aof != null ==> aof.base == old(aof.base) && aof.file == old(aof.file)
      ensures aof != null ==> aof.writeFailed == old(aof.writeFailed) && aof.isOpen == old(aof.isOpen)
      ensures Answers(old(db.View(now)), step, reply, old(RefusalReason())) && (close <==> Dispatch(arguments).Quit?)
      ensures step.ran <==> !old(Refuses(arguments))
      ensures !reply.Unspecified?
      ensures step.evicted == old(Evicts(arguments)) && ToSet(step.evicted) <= old(db.data.Keys)
      ensures db.data.Keys <= old(db.data.Keys) + ToSet(arguments)
      ensures db.memoryUsed > old(db.memoryUsed) ==> MayGrow(arguments) && WithinReach(arguments)
      ensures db.memoryLimit == LimitAfter(arguments, old(db.memoryLimit))
      ensures db.policy == PolicyAfter(arguments, old(db.policy))
      ensures forall i :: 0 <= i < |db.lru| ==> db.lru[i] in old(db.lru) || fresh(db.lru[i])
    {
      hide Storage.Database.View, Storage.Database.Linked, Storage.Database.Accounted, ToSet, Exec, Query;
      hide Dispatch, RunPlan, PlanWrite, ArgumentCost, Answers, StepKeyspace, StepEntries, AllProper;
      hide Aof.AppendOnlyFile.Valid;
      hide ParseMemorySize, SettingOf, Storage.Database.Victims;
      ghost var ks := db.View(now);
      FreshView(db, now);
      NothingRemoved(ks);
      ExecCases(ks, arguments, now);
      close := false;
      if arguments != [] {
        totalCommands := totalCommands + 1;
      }
      match Dispatch(arguments)
      case Reject(problem) =>
        step := Ran(ks, arguments, now, [], Failure(problem));
        reply := Failure(problem);
      case Quit =>
        step := Ran(ks, arguments, now, [], Reply.Ok);
        reply, close := Reply.Ok, true;
      case Read(h) => reply, step := ExecuteRead(h, arguments, now);
      case Write(h) => reply, step := ExecuteWrite(h, arguments, now);
    }

    /** A read command. Only CONFIG SET maxmemory evicts, and then logs what it evicted. */
    method ExecuteRead(h: Handler, arguments: Command, now: int) returns (reply: Reply, ghost step: Step)
      requires Dispatch(arguments) == Read(h)
      requires Valid()
      modifies db, db.lru, aof
      ensures Valid() && step.arguments == arguments && step.time == now && step.ran
      ensures db.View(now) == StepKeyspace(old(db.View(now)), step)
      ensures aof != null ==> Logged(old(aof.appended), StepEntries(old(db.View(now)), step))
      ensures aof != null ==> aof.base == old(aof.base) && aof.file == old(aof.file)
      ensures aof != null ==> aof.writeFailed == old(aof.writeFailed) && aof.isOpen == old(aof.isOpen)
      ensures forall reason :: Answers(old(db.View(now)), step, reply, reason)
      ensures !reply.Unspecified?
      ensures step.evicted == old(Evicts(arguments)) && ToSet(step.evicted) <= old(db.data.Keys)
      ensures db.data.Keys <= old(db.data.Keys)
      ensures db.memoryUsed <= old(db.memoryUsed)
      ensures db.memoryLimit == LimitAfter(arguments, old(db.memoryLimit))
      ensures db.policy == PolicyAfter(arguments, old(db.policy))
      ensures forall i :: 0 <= i < |db.lru| ==> db.lru[i] in old(db.lru)
    {
      hide Storage.Database.View, Storage.Database.Linked, Storage.Database.Accounted;
      hide Storage.Database.Victims;
      hide ToSet, Exec, Query, Dispatch, Answers, StepKeyspace, StepEntries, AllProper;
      hide Aof.AppendOnlyFile.Valid;
      hide ParseMemorySize, SettingOf, Selected, Parameters;
      ghost var ks := db.View(now);
      FreshView(db, now);
      NothingRemoved(ks);
      ExecCases(ks, arguments, now);
      if !h.Config? {
        ReadSpecified(ks, h, arguments, now);
        reply := RunRead(db, h, arguments, now);
        step := Ran(ks, arguments, now, [], reply);
        return;
      }
      var evicted;
      reply, evicted := RunConfig(db, aof != null, port, arguments, now);
      ExecCases(ks - ToSet(evicted), arguments, now);
      step := Ran(ks, arguments, now, evicted, reply);
      Propagate(DelEntries(evicted));
    }

    /** What happens before a write handler: the health of the log, eviction, the memory limit. */
    method Admit(h: Handler, ghost arguments: Command, ghost now: int)
      returns (evicted: seq<string>, refusal: Option<Problem>)
      requires Dispatch(arguments) == Write(h)
      requires Valid()
      modifies db, db.lru, aof
      ensures Valid() && db.memoryLimit == old(db.memoryLimit) && db.policy == old(db.policy)
      ensures db.View(now) == old(db.View(now)) - ToSet(evicted)
      ensures aof != null ==> Logged(old(aof.appended), DelEntries(evicted))
      ensures aof != null ==> aof.base == old(aof.base) && aof.file == old(aof.file)
      ensures aof != null ==> aof.writeFailed == old(aof.writeFailed) && aof.isOpen == old(aof.isOpen)
      ensures refusal == if old(Refuses(arguments)) then Some(old(RefusalReason())) else None
      ensures evicted == old(Evicts(arguments)) && ToSet(evicted) <= old(db.data.Keys)
      ensures db.data.Keys <= old(db.data.Keys)
      ensures db.memoryUsed <= old(db.memoryUsed)
      ensures refusal.None? && DenyOom(h) ==> db.memoryLimit == 0 || db.memoryUsed <= db.memoryLimit
      ensures forall i :: 0 <= i < |db.lru| ==> db.lru[i] in old(db.lru)
    {
      hide Storage.Database.View, Storage.Database.Linked, Storage.Database.Accounted, ToSet, Dispatch;
      hide DenyOom, Storage.Database.Victims;
      NothingRemoved(db.View(now));
      if aof != null && !aof.Healthy() {
        return [], Some(Misconfigured);
      }
      var withinLimit;
      withinLimit, evicted := MakeRoom(db, now);
      Propagate(DelEntries(evicted));
      return evicted, if !withinLimit && DenyOom(h) then Some(OutOfMemory) else None;
    }

    /** A write command: refused, or let through after the evictions it calls for. */
    method ExecuteWrite(h: Handler, arguments: Command, now: int) returns (reply: Reply, ghost step: Step)
      requires Dispatch(arguments) == Write(h)
      requires Valid() && 0 <= now && AllProper(db.View(now))
      modifies db, db.lru, aof
      ensures Valid() && step.arguments == arguments && step.time == now
      ensures db.View(now) == StepKeyspace(old(db.View(now)), step)
      ensures aof != null ==> Logged(old(aof.appended), StepEntries(old(db.View(now)), step))
      ensures aof != null ==> aof.base == old(aof.base) && aof.file == old(aof.file)
      ensures aof != null ==> aof.writeFailed == old(aof.writeFailed) && aof.isOpen == old(aof.isOpen)
      ensures Answers(old(db.View(now)), step, reply, old(RefusalReason()))
      ensures step.ran <==> !old(Refuses(arguments))
      ensures !reply.Unspecified?
      ensures step.evicted == old(Evicts(arguments)) && ToSet(step.evicted) <= old(db.data.Keys)
      ensures db.data.Keys <= old(db.data.Keys) + ToSet(arguments)
      ensures db.memoryUsed > old(db.memoryUsed) ==> DenyOom(h) && WithinReach(arguments)
      ensures db.memoryLimit == old(db.memoryLimit) && db.policy == old(db.policy)
      ensures forall i :: 0 <= i < |db.lru| ==> db.lru[i] in old(db.lru) || fresh(db.lru[i])
    {
      hide Storage.Database.View, Storage.Database.Linked, Storage.Database.Accounted, ToSet, Exec, Query;
      hide Dispatch, RunPlan, PlanWrite, ArgumentCost, DenyOom, Answers, StepKeyspace, StepEntries, AllProper;
      hide Refuses, RefusalReason, Aof.AppendOnlyFile.Valid, DelEntries, Evicts;
      ghost var ks := db.View(now);
      FreshView(db, now);
      NothingRemoved(ks);
      var evicted, refusal := Admit(h, arguments, now);
      if refusal.Some? {
        step := TurnedAway(ks, arguments, now, evicted);
        return Failure(refusal.value), step;
      }
      ProperMinus(ks, ToSet(evicted));
      ExecCases(ks - ToSet(evicted), arguments, now);
      var log;
      WriteSpecifies(ks - ToSet(evicted), PlanWrite(h, arguments, now), arguments, now);
      reply, log := RunWrite(db, h, arguments, now);
      Propagate(log);
      step := Ran(ks, arguments, now, evicted, reply);
    }

    /** The log has been extended by exactly these entries, in this order. */
    ghost predicate Logged(before: seq<Command>, entries: seq<Command>)
      requires aof != null
      reads aof
    {
      aof.appended == before + entries
    }

    /** Whether a command is turned away before it looks at any key. */
    ghost predicate Refuses(arguments: Command)
      reads db, aof
    {
      && Dispatch(arguments).Write?
      && (|| (aof != null && aof.writeFailed)
          || (DenyOom(Dispatch(arguments).h) && db.policy == NoEviction && 0 < db.memoryLimit < db.memoryUsed))
    }

    /** The keys that a command evicts, in order, before it runs; none if it is not a write or the log is unhealthy. */
    ghost function Evicts(arguments: Command): seq<string>
      reads db, db.lru, aof
    {
      match Dispatch(arguments)
      case Write(_) => if aof != null && aof.writeFailed then [] else db.Victims(db.memoryLimit)
      case Read(h) =>
        if h.Config? && |arguments| >= 2 && SettingOf(arguments).Limit? then db.Victims(SettingOf(arguments).bytes)
        else []
      case _ => []
    }

    ghost function RefusalReason(): Problem
      reads aof
    {
      if aof != null && aof.writeFailed then Misconfigured else OutOfMemory
    }

    /** Usage is within the limit and what one command's arguments can add. */
    ghost predicate WithinReach(arguments: Command)
      reads db
    {
      db.memoryLimit == 0 || db.memoryUsed <= db.memoryLimit + ArgumentCost(arguments)
    }
  }

  /** Only the commands that are refused under memory pressure can raise the memory estimate. */
  predicate MayGrow(arguments: Command) {
    Dispatch(arguments).Write? && DenyOom(Dispatch(arguments).h)
  }

  /** The replies to DBSIZE, INFO and CONFIG GET, which are about more than the unexpired keyspace. */
  predicate Informs(reply: Reply) {
    reply.Integer? || reply.BulkReply? || reply.Strings?
  }

  /** The reply is the one the specification gives, where it gives one; a refusal says why. */
  ghost predicate Answers(ks: Keyspace, s: Step, reply: Reply, reason: Problem) {
    if s.ran then
      var expected := Exec(AfterEviction(ks, s), s.arguments, s.time).reply;
      reply == expected || (expected.Unspecified? && Informs(reply))
    else reply == Failure(reason)
  }

  /** A step in which the command ran. */
  lemma Ran(ks: Keyspace, arguments: Command, now: int, evicted: seq<string>, reply: Reply) returns (s: Step)
    requires Live(ks, now) == ks
    requires var expected := Exec(ks - ToSet(evicted), arguments, now).reply;
             reply == expected || (expected.Unspecified? && Informs(reply))
    ensures s == Step(arguments, now, evicted, true)
    ensures StepKeyspace(ks, s) == Exec(ks - ToSet(evicted), arguments, now).ks
    ensures StepEntries(ks, s) == DelEntries(evicted) + Exec(ks - ToSet(evicted), arguments, now).log
    ensures forall reason :: Answers(ks, s, reply, reason)
  {
    hide Exec, ToSet;
    s := Step(arguments, now, evicted, true);
  }

  /** A step in which it was refused. */
  lemma TurnedAway(ks: Keyspace, arguments: Command, now: int, evicted: seq<string>) returns (s: Step)
    requires Live(ks, now) == ks
    ensures s == Step(arguments, now, evicted, false)
    ensures StepKeyspace(ks, s) == ks - ToSet(evicted) && StepEntries(ks, s) == DelEntries(evicted)
    ensures forall reason :: Answers(ks, s, Failure(reason), reason)
  {
    hide Exec, ToSet;
    s := Step(arguments, now, evicted, false);
  }

  lemma ReadSpecified(ks: Keyspace, h: Handler, arguments: Command, now: int)
    requires Dispatch(arguments) == Read(h) && !h.Config?
    ensures |arguments| >= 1 && (!h.DbSize? && !h.Info? ==> !Query(ks, h, arguments, now).Unspecified?)
  {
    hide Query, Dispatch;
    if !h.DbSize? && !h.Info? {
      ReadSpecifies(ks, h, arguments, now);
    }
  }

  lemma ProperMinus(ks: Keyspace, keys: set<string>)
    requires AllProper(ks)
    ensures AllProper(ks - keys)
  {
  }

  lemma FreshView(db: Database, now: int)
    ensures Live(db.View(now), now) == db.View(now)
  {
    LiveTwice(db.Contents(), now, now);
  }

  lemma ExecCases(ks: Keyspace, arguments: Command, now: int)
    ensures match Dispatch(arguments)
            case Reject(problem) => Exec(ks, arguments, now) == Effect(ks, Failure(problem), [])
            case Quit => Exec(ks, arguments, now) == Effect(ks, Reply.Ok, [])
            case Read(h) =>
              && Exec(ks, arguments, now) == Effect(ks, Query(ks, h, arguments, now), [])
              && (h.Config? ==> |arguments| >= 2)
              && (h.Config? ==> Query(ks, h, arguments, now) == ConfigReply(arguments))
              && (h.DbSize? || h.Info? ==> Query(ks, h, arguments, now).Unspecified?)
            case Write(h) => Exec(ks, arguments, now) == RunPlan(ks, PlanWrite(h, arguments, now), arguments, now)
  {
    hide RunPlan, PlanWrite, Dispatch;
  }
}
