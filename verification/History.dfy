/**
 * What becomes of a server, as a function of what happens to it: requests, expiry cycles and
 * writes of the log, crashes at any byte of the file, and starts from what the crash left.
 */
module History {
  import opened Values
  import opened Keyspace
  import opened Resp
  import opened CommandSpec
  import opened Storage
  import opened Aof
  import opened Commands
  import opened Processor
  import opened Recovery
  import opened Lifetime
  import opened SystemCalls
  import opened Text

  /** What may happen to a running server, each event some time after the one before. */
  datatype Event =
    | Request(arguments: Command, delay: nat)
    | Expiry(samplesPerLoop: nat, timed: bool, delay: nat)
    | LogWrite(responses: seq<Response>)

  predicate Acceptable(e: Event) {
    e.Request? ==> WithinLimits(e.arguments)
  }

  /**
   * A server at a moment: the time, the unexpired keyspace, the log, the settings, whether
   * the last write of the log failed, and how many bytes of the log are in the file.
   */
  datatype Moment = Moment(
    now: int, ks: Keyspace, log: seq<Stamped>, limit: nat, policy: EvictionPolicy, troubled: bool, written: nat)

  /**
   * What the events do not say of a request: the memory estimate before it, which keys it
   * evicted, and what it was answered. `Possible` says how far they are determined.
   */
  datatype Choice = Choice(used: nat, evicted: seq<string>, reply: Reply)

  /** A write is refused while the log is in trouble, and under pressure if it may grow the store. */
  predicate Refused(m: Moment, c: Command, used: nat) {
    && Dispatch(c).Write?
    && (m.troubled || (DenyOom(Dispatch(c).h) && m.policy == NoEviction && 0 < m.limit < used))
  }

  /** The memory limit that a command enforces by evicting, if it does. */
  function Enforces(m: Moment, c: Command): Option<nat> {
    match Dispatch(c)
    case Write(_) => if m.troubled then None else Some(m.limit)
    case Read(h) => if h.Config? && |c| >= 2 && SettingOf(c).Limit? then Some(SettingOf(c).bytes) else None
    case _ => None
  }

  /** Nothing is evicted unless the policy asks for it and usage is over the limit enforced. */
  predicate MayEvict(m: Moment, c: Command, used: nat) {
    Enforces(m, c).Some? && m.policy == AllKeysLru && 0 < Enforces(m, c).value < used
  }

  function StepOf(m: Moment, e: Event, c: Choice): Step
    requires e.Request?
  {
    Step(e.arguments, m.now + e.delay, c.evicted, !Refused(m, e.arguments, c.used))
  }

  ghost predicate Possible(m: Moment, e: Event, c: Choice) {
    e.Request? ==>
      && (c.evicted != [] ==> MayEvict(m, e.arguments, c.used))
      && Answers(
        Live(m.ks, m.now + e.delay), StepOf(m, e, c), c.reply, if m.troubled then Misconfigured else OutOfMemory)
  }

  ghost function LogLength(m: Moment): nat {
    |EncodeAll(CommandsOf(m.log))|
  }

  /** What an event makes of a server. */
  ghost function After(m: Moment, e: Event, c: Choice): Moment {
    match e
    case Request(arguments, delay) =>
      var s := StepOf(m, e, c);
      Moment(
        s.time, StepKeyspace(m.ks, s), m.log + StepLog(m.ks, s),
        LimitAfter(arguments, m.limit), PolicyAfter(arguments, m.policy), m.troubled, m.written)
    case Expiry(_, _, delay) => m.(now := m.now + delay, ks := Live(m.ks, m.now + delay))
    case LogWrite(responses) =>
      var t := Offer(if m.written < LogLength(m) then LogLength(m) - m.written else 0, 0, responses);
      m.(troubled := !t.stop.Done?, written := m.written + t.count)
  }

  /** The server after the first n events. */
  ghost function Story(m: Moment, events: seq<Event>, choices: seq<Choice>, n: nat): Moment {
    if n == 0 || n > |events| || n > |choices| then m
    else After(Story(m, events, choices, n - 1), events[n - 1], choices[n - 1])
  }

  ghost predicate AllPossible(m: Moment, events: seq<Event>, choices: seq<Choice>) {
    forall i :: 0 <= i < |events| && i < |choices| ==> Possible(Story(m, events, choices, i), events[i], choices[i])
  }

  lemma {:induction false} StoryPrefix(m: Moment, events: seq<Event>, choices: seq<Choice>, c: Choice, n: nat)
    requires n <= |choices|
    ensures Story(m, events, choices + [c], n) == Story(m, events, choices, n)
  {
    hide After;
    if n > 0 {
      StoryPrefix(m, events, choices, c, n - 1);
      assert (choices + [c])[n - 1] == choices[n - 1];
    }
  }

  lemma StoryGrows(m: Moment, events: seq<Event>, choices: seq<Choice>, c: Choice)
    requires |choices| < |events| && AllPossible(m, events, choices)
    requires var before := Story(m, events, choices, |choices|); Possible(before, events[|choices|], c)
    ensures AllPossible(m, events, choices + [c])
    ensures Story(m, events, choices + [c], |choices| + 1) ==
            After(Story(m, events, choices, |choices|), events[|choices|], c)
  {
    hide After, Possible;
    var longer := choices + [c];
    forall i | 0 <= i < |longer| ensures Possible(Story(m, events, longer, i), events[i], longer[i]) {
      StoryPrefix(m, events, choices, c, i);
    }
    StoryPrefix(m, events, choices, c, |choices|);
  }

  // ---------------------------------------------------------------
  // The server lives its story
  // ---------------------------------------------------------------

  /** The server is as the moment says: store, settings, log, buffer and file. */
  ghost predicate Shows(p: CommandProcessor, m: Moment)
    reads p, p.db, p.db.lru, p.db.data.Values, p.aof
  {
    && InStep(p, m.log, m.now) && p.db.View(m.now) == m.ks
    && p.db.memoryLimit == m.limit && p.db.policy == m.policy
    && p.aof.isOpen && p.aof.writeFailed == m.troubled
    && |p.aof.file| == m.written
  }

  lemma StepFromLive(ks: Keyspace, s: Step)
    ensures StepKeyspace(Live(ks, s.time), s) == StepKeyspace(ks, s)
    ensures StepLog(Live(ks, s.time), s) == StepLog(ks, s)
    ensures AfterEviction(Live(ks, s.time), s) == AfterEviction(ks, s)
  {
    hide Exec, Live;
    LiveTwice(ks, s.time, s.time);
  }

  lemma WithinLimitEvictsNothing(db: Database, limit: nat)
    requires db.Linked() && db.memoryUsed <= limit
    ensures db.Victims(limit) == []
  {
    hide Storage.Database.Linked, Usages, TailFirst;
    db.UsageIsTotal();
    NoneEvicted(db.lru);
  }

  /** What a processor evicts is what may be evicted. */
  lemma EvictsAsAllowed(p: CommandProcessor, m: Moment, c: Command)
    requires p.Valid() && p.aof != null && p.db.memoryLimit == m.limit && p.db.policy == m.policy
    requires p.aof.writeFailed == m.troubled
    ensures p.Evicts(c) != [] ==> MayEvict(m, c, p.db.memoryUsed)
    ensures p.Refuses(c) <==> Refused(m, c, p.db.memoryUsed)
    ensures p.RefusalReason() == if m.troubled then Misconfigured else OutOfMemory
  {
    hide Storage.Database.Linked, Storage.Database.Accounted, Storage.Database.Victims, Dispatch, SettingOf;
    hide Aof.AppendOnlyFile.Valid;
    var limit := Enforces(m, c);
    if limit.Some? {
      if p.db.memoryUsed <= limit.value {
        WithinLimitEvictsNothing(p.db, limit.value);
      }
      NothingToEnforce(p.db, limit.value);
    }
  }

  lemma NothingToEnforce(db: Database, limit: nat)
    ensures db.policy == NoEviction || limit == 0 ==> db.Victims(limit) == []
  {
  }

  lemma ShowsParts(p: CommandProcessor, m: Moment)
    requires Shows(p, m)
    ensures p.Valid() && p.aof != null && 0 <= m.now
  {
    hide Storage.Database.Linked, Storage.Database.Accounted, Aof.AppendOnlyFile.Valid, Tracks, EncodeAll;
  }

  /** A request is served, or refused, at its time. */
  method Serves(p: CommandProcessor, e: Event, now: int, ghost m: Moment) returns (ghost c: Choice)
    requires e.Request? && Shows(p, m) && Acceptable(e) && now == m.now + e.delay
    modifies p, p.db, p.db.lru, p.aof
    ensures Possible(m, e, c) && Shows(p, After(m, e, c))
    ensures forall i :: 0 <= i < |p.db.lru| ==> p.db.lru[i] in old(p.db.lru) || fresh(p.db.lru[i])
  {
    hide InStep, StepLog, StepKeyspace, Answers, Storage.Database.View, WithinLimits, Live, StepEntries;
    hide Processor.CommandProcessor.Evicts, Processor.CommandProcessor.Refuses, MayEvict, Refused, LimitAfter;
    hide PolicyAfter, Processor.CommandProcessor.RefusalReason, Dispatch, AfterEviction;
    ghost var used := p.db.memoryUsed;
    ShowsParts(p, m);
    EvictsAsAllowed(p, m, e.arguments);
    ViewLater(p.db, m.now, now);
    var reply, close, step := Serve(p, e.arguments, now, m.log, m.now);
    c := Choice(used, step.evicted, reply);
    assert step == StepOf(m, e, c);
    StepFromLive(m.ks, step);
  }

  /** Keys expire, or do not; nobody can tell. */
  method Expires(p: CommandProcessor, e: Event, now: int, ghost m: Moment)
    requires e.Expiry? && Shows(p, m) && now == m.now + e.delay
    modifies p.db, p.db.lru
    ensures Shows(p, After(m, e, Choice(0, [], Reply.Ok)))
    ensures forall i :: 0 <= i < |p.db.lru| ==> p.db.lru[i] in old(p.db.lru)
  {
    hide InStep, Storage.Database.View, Live;
    ShowsParts(p, m);
    ViewLater(p.db, m.now, now);
    ExpireSome(p, e.samplesPerLoop, e.timed, now, m.log, m.now);
  }

  /** What is not in the file yet is what is in the buffer. */
  lemma BufferIsRest(p: CommandProcessor, m: Moment)
    requires Shows(p, m)
    ensures |p.aof.buffer| == LogLength(m) - m.written && p.aof.file <= EncodeAll(CommandsOf(m.log))
  {
    hide Storage.Database.Linked, Storage.Database.Accounted, Tracks, EncodeAll, CommandsOf, AllWithinLimits;
    assert p.aof.file + p.aof.buffer == EncodeAll(CommandsOf(m.log));
  }

  /** The log is written out, as far as the system lets it. */
  method WritesLog(p: CommandProcessor, e: Event, ghost m: Moment)
    requires e.LogWrite? && Shows(p, m)
    modifies p.aof
    ensures Shows(p, After(m, e, Choice(0, [], Reply.Ok)))
  {
    hide InStep, Storage.Database.View, EncodeAll, CommandsOf, Offer;
    ShowsParts(p, m);
    BufferIsRest(p, m);
    OfferNothing(0, e.responses);
    var ok := FlushLog(p, e.responses, m.log, m.now);
  }

  /** One event, whatever it is. */
  method Happen(p: CommandProcessor, e: Event, start: int, ghost m: Moment) returns (now: int, ghost c: Choice)
    requires Shows(p, m) && Acceptable(e) && start == m.now
    modifies p, p.db, p.db.lru, p.aof
    ensures Possible(m, e, c) && Shows(p, After(m, e, c)) && now == After(m, e, c).now
    ensures forall i :: 0 <= i < |p.db.lru| ==> p.db.lru[i] in old(p.db.lru) || fresh(p.db.lru[i])
  {
    hide Shows, StepLog, StepKeyspace, Answers, Offer;
    match e
    case Request(_, delay) =>
      now := start + delay;
      c := Serves(p, e, now, m);
    case Expiry(_, _, delay) =>
      now, c := start + delay, Choice(0, [], Reply.Ok);
      Expires(p, e, now, m);
    case LogWrite(_) =>
      now, c := start, Choice(0, [], Reply.Ok);
      HasLog(p, m);
      WritesLog(p, e, m);
  }

  lemma HasLog(p: CommandProcessor, m: Moment)
    requires Shows(p, m)
    ensures p.aof != null
  {
  }

  /** A server lives exactly through the events, in order, one choice for each. */
  method Run(p: CommandProcessor, events: seq<Event>, start: int, ghost m: Moment)
    returns (now: int, ghost choices: seq<Choice>)
    requires Shows(p, m) && start == m.now && forall i :: 0 <= i < |events| ==> Acceptable(events[i])
    modifies p, p.db, p.db.lru, p.aof
    ensures |choices| == |events| && AllPossible(m, events, choices)
    ensures var end := Story(m, events, choices, |events|); Shows(p, end) && now == end.now
    ensures forall i :: 0 <= i < |p.db.lru| ==> p.db.lru[i] in old(p.db.lru) || fresh(p.db.lru[i])
  {
    hide Shows, After, Possible, Acceptable;
    now, choices := start, [];
    for i := 0 to |events|
      invariant |choices| == i && AllPossible(m, events, choices)
      invariant Shows(p, Story(m, events, choices, i)) && now == Story(m, events, choices, i).now
      invariant forall i :: 0 <= i < |p.db.lru| ==> p.db.lru[i] in old(p.db.lru) || fresh(p.db.lru[i])
    {
      ghost var here := Story(m, events, choices, i);
      ghost var c;
      now, c := Happen(p, events[i], now, here);
      StoryGrows(m, events, choices, c);
      choices := choices + [c];
    }
  }

  // ---------------------------------------------------------------
  // Crash and restart
  // ---------------------------------------------------------------

  /** A run that ends in a crash after some bytes of the file, and the settings of the next start. */
  datatype Life = Life(events: seq<Event>, cut: nat, downtime: nat, maxMemory: nat, policy: EvictionPolicy)

  /** How many log entries a crash leaves whole in the file. */
  ghost function Survivors(m: Moment, life: Life): (n: nat)
    ensures n <= |m.log|
  {
    WholeCommands(CommandsOf(m.log), Min(life.cut, m.written))
  }

  /** The log with which the next server starts: those entries, all at the time of the start. */
  ghost function Inherited(m: Moment, life: Life): seq<Stamped> {
    Restamped(m.log[..Survivors(m, life)], m.now + life.downtime)
  }

  /** The next server, if it starts. */
  ghost function Reborn(m: Moment, life: Life): Moment {
    var log := Inherited(m, life);
    Moment(
      m.now + life.downtime, Redo(map[], log), log,
      life.maxMemory, life.policy, false, |EncodeAll(CommandsOf(log))|)
  }

  /** It starts if and only if every entry left replays without an error. */
  ghost predicate Restarts(m: Moment, life: Life) {
    Succeeds(map[], Inherited(m, life))
  }

  /** No entry of the log is harmful for a start at that time. */
  ghost predicate Unharmed(m: Moment, life: Life) {
    WellFormed(m.log, m.now + life.downtime) && AllHarmless(m.log, |m.log|, m.now + life.downtime)
  }

  /** Crash and restart. */
  method Rise(p: CommandProcessor, life: Life, port: nat, now: int, ghost m: Moment)
    returns (ok: bool, q: CommandProcessor)
    requires Shows(p, m) && now == m.now + life.downtime
    ensures q.aof != null && fresh(q) && fresh(q.db) && fresh(q.aof)
    ensures forall i :: 0 <= i < |q.db.lru| ==> fresh(q.db.lru[i])
    ensures ok <==> Restarts(m, life)
    ensures ok ==> Shows(q, Reborn(m, life))
  {
    hide InStep, Storage.Database.View, EncodeAll, CommandsOf, Redo, Succeeds, Live, AllHarmless, WellFormed;
    hide WholeCommands, AllWithinLimits, Restamped;
    ShowsParts(p, m);
    BufferIsRest(p, m);
    CrashedFile(p, m.log, m.now, now);
    var cut := Min(life.cut, |p.aof.file|);
    assert p.aof.file[..cut] == EncodeAll(CommandsOf(m.log))[..cut];
    ghost var n := Survivors(m, life);
    SameCommands(m.log, n, now);
    var result;
    result, q := Restart(p.aof.file[..cut], life.maxMemory, life.policy, port, now, m.log, cut);
    ok := result.Loaded?;
  }

  lemma SameCommands(log: seq<Stamped>, n: nat, now: int)
    requires n <= |log|
    ensures CommandsOf(Restamped(log[..n], now)) == CommandsOf(log[..n])
  {
  }

  /** A server without harmful entries starts again, with what the live store held after the entries left. */
  lemma UnharmedRestarts(p: CommandProcessor, m: Moment, life: Life)
    requires Shows(p, m) && Unharmed(m, life)
    ensures Restarts(m, life)
    ensures Reborn(m, life).ks == Live(Redo(map[], m.log[..Survivors(m, life)]), m.now + life.downtime)
  {
    hide Redo, Succeeds, WellFormed, AllHarmless, WholeCommands, Restamped, Live, EncodeAll, AllWithinLimits;
    hide Storage.Database.View, Storage.Database.Linked, Storage.Database.Accounted, KeysFit;
    PrefixRecovers(m.log, Survivors(m, life), m.now + life.downtime);
  }

  /** If the log was written out, it starts with what the live store would still hold. */
  lemma NothingLost(p: CommandProcessor, m: Moment, life: Life)
    requires Shows(p, m) && Unharmed(m, life) && m.written == LogLength(m) && life.cut >= m.written
    ensures Restarts(m, life) && Reborn(m, life).ks == Live(m.ks, m.now + life.downtime)
  {
    hide Redo, Succeeds, WellFormed, AllHarmless, Restamped, Live, EncodeAll, AllWithinLimits, WholeCommands;
    hide Storage.Database.View, Storage.Database.Linked, Storage.Database.Accounted, KeysFit;
    var n := Survivors(m, life);
    AllSurvive(m.log, m.written);
    assert m.log[..n] == m.log;
    UnharmedRestarts(p, m, life);
    LiveTwice(Redo(map[], m.log), m.now, m.now + life.downtime);
  }

  lemma AllSurvive(log: seq<Stamped>, written: nat)
    requires written >= |EncodeAll(CommandsOf(log))|
    ensures WholeCommands(CommandsOf(log), written) == |log|
  {
    hide EncodeAll;
  }

  /**
   * The whole of it: a server whose log is in its file, and of whose log every doomed key is
   * overwritten or left alone, is started again later from that file. The start succeeds,
   * and the new server holds exactly what the old one would still hold at that time.
   */
  method RestartHoldsTheSame(p: CommandProcessor, life: Life, port: nat, now: int, ghost m: Moment)
    returns (q: CommandProcessor)
    requires Shows(p, m) && now == m.now + life.downtime && p.aof.buffer == "" && life.cut >= |p.aof.file|
    requires WellFormed(m.log, now) && OverwrittenOnly(m.log, now)
    ensures fresh(q) && q.db.View(now) == Live(old(p.db.View(m.now)), now)
    ensures Shows(q, Reborn(m, life))
  {
    hide InStep, Storage.Database.View, EncodeAll, Redo, Live, AllHarmless, WellFormed, OverwrittenOnly, Restarts;
    OverwrittenOnlyIsHarmless(m.log, now);
    BufferIsRest(p, m);
    NothingLost(p, m, life);
    var ok;
    ok, q := Rise(p, life, port, now, m);
  }

  // ---------------------------------------------------------------
  // Any number of lives
  // ---------------------------------------------------------------

  /** A server on an empty file. */
  const Newborn: Moment := Moment(0, map[], [], 0, NoEviction, false, 0)

  /** How the i-th life starts. */
  ghost function Birth(lives: seq<Life>, choices: seq<seq<Choice>>, i: nat): Moment {
    if i == 0 || i > |lives| || i > |choices| then Newborn
    else
      var before := lives[i - 1];
      Reborn(Story(Birth(lives, choices, i - 1), before.events, choices[i - 1], |before.events|), before)
  }

  /** How it ends. */
  ghost function Death(lives: seq<Life>, choices: seq<seq<Choice>>, i: nat): Moment
    requires i < |lives| && i < |choices|
  {
    Story(Birth(lives, choices, i), lives[i].events, choices[i], |lives[i].events|)
  }

  lemma {:induction false} BirthPrefix(lives: seq<Life>, choices: seq<seq<Choice>>, more: seq<Choice>, i: nat)
    requires i <= |choices|
    ensures Birth(lives, choices + [more], i) == Birth(lives, choices, i)
  {
    hide Reborn, Story;
    if i > 0 {
      BirthPrefix(lives, choices, more, i - 1);
      assert (choices + [more])[i - 1] == choices[i - 1];
    }
  }

  /** The i-th life was lived, event by event. */
  ghost predicate Lived(lives: seq<Life>, choices: seq<seq<Choice>>, i: nat)
    requires i < |lives| && i < |choices|
  {
    |choices[i]| == |lives[i].events| && AllPossible(Birth(lives, choices, i), lives[i].events, choices[i])
  }

  /** The server that the i-th life leaves behind starts again. */
  ghost predicate Continues(lives: seq<Life>, choices: seq<seq<Choice>>, i: nat)
    requires i < |lives| && i < |choices|
  {
    Restarts(Death(lives, choices, i), lives[i])
  }

  ghost predicate Harms(lives: seq<Life>, choices: seq<seq<Choice>>, i: nat)
    requires i < |lives| && i < |choices|
  {
    !Unharmed(Death(lives, choices, i), lives[i])
  }

  lemma LivesPrefix(lives: seq<Life>, choices: seq<seq<Choice>>, more: seq<Choice>)
    requires |choices| < |lives|
    ensures var longer := choices + [more];
      && (forall i :: 0 <= i < |choices| ==>
            && (Lived(lives, longer, i) <==> Lived(lives, choices, i))
            && (Continues(lives, longer, i) <==> Continues(lives, choices, i))
            && (Harms(lives, longer, i) <==> Harms(lives, choices, i)))
      && Birth(lives, longer, |choices|) == Birth(lives, choices, |choices|)
  {
    hide Birth, Story, AllPossible, Restarts, Unharmed;
    forall i | 0 <= i <= |choices| ensures Birth(lives, choices + [more], i) == Birth(lives, choices, i) {
      BirthPrefix(lives, choices, more, i);
    }
    assert forall i :: 0 <= i < |choices| ==> (choices + [more])[i] == choices[i];
  }

  /** A server is made on an empty file. */
  method Begin(port: nat) returns (p: CommandProcessor)
    ensures p.aof != null && fresh(p) && fresh(p.db) && fresh(p.aof)
    ensures forall i :: 0 <= i < |p.db.lru| ==> fresh(p.db.lru[i])
    ensures Shows(p, Newborn)
  {
    hide InStep, Storage.Database.View;
    NothingWritten();
    var result;
    result, p := Restart("", 0, NoEviction, port, 0, [], 0);
  }

  lemma NothingWritten()
    ensures WellFormed([], 0) && Succeeds(map[], []) && CommandsOf([]) == [] && EncodeAll([]) == ""
    ensures Restamped([][..0], 0) == [] && WholeCommands([], 0) == 0 && AllWithinLimits([])
    ensures EncodeAll([])[..0] == "" && Redo(map[], []) == map[]
  {
  }

  /** One life: the events, the crash, and the next start. */
  method LiveOnce(p: CommandProcessor, life: Life, port: nat, start: int, ghost m: Moment)
    returns (again: bool, q: CommandProcessor, now: int, ghost choices: seq<Choice>)
    requires Shows(p, m) && start == m.now && forall i :: 0 <= i < |life.events| ==> Acceptable(life.events[i])
    modifies p, p.db, p.db.lru, p.aof
    ensures |choices| == |life.events| && AllPossible(m, life.events, choices)
    ensures q.aof != null && fresh(q) && fresh(q.db) && fresh(q.aof)
    ensures forall i :: 0 <= i < |q.db.lru| ==> fresh(q.db.lru[i])
    ensures var end := Story(m, life.events, choices, |life.events|);
      && (again <==> Restarts(end, life)) && (Unharmed(end, life) ==> again)
      && now == Reborn(end, life).now && (again ==> Shows(q, Reborn(end, life)))
  {
    hide Shows, AllPossible, Story, Acceptable, Restarts, Unharmed, Inherited;
    now, choices := Run(p, life.events, start, m);
    ghost var end := Story(m, life.events, choices, |life.events|);
    if Unharmed(end, life) {
      UnharmedRestarts(p, end, life);
    }
    now := now + life.downtime;
    again, q := Rise(p, life, port, now, end);
  }

  lemma FirstBirth(lives: seq<Life>)
    ensures Birth(lives, [], 0) == Newborn && WentOn(lives, [])
  {
  }

  /** What the last life so far was, and what follows it. */
  lemma LastLife(lives: seq<Life>, choices: seq<seq<Choice>>)
    requires 0 < |choices| <= |lives|
    ensures var k := |choices| - 1;
      var start := Birth(lives, choices, k);
      var end := Story(start, lives[k].events, choices[k], |lives[k].events|);
      && (Lived(lives, choices, k) <==>
            |choices[k]| == |lives[k].events| && AllPossible(start, lives[k].events, choices[k]))
      && (Continues(lives, choices, k) <==> Restarts(end, lives[k]))
      && (Harms(lives, choices, k) <==> !Unharmed(end, lives[k]))
      && Birth(lives, choices, |choices|) == Reborn(end, lives[k])
  {
    hide Story, AllPossible, Restarts, Unharmed, Reborn;
  }

  /** All lives so far were lived and went on. */
  ghost predicate WentOn(lives: seq<Life>, choices: seq<seq<Choice>>) {
    |choices| <= |lives| && forall i :: 0 <= i < |choices| ==> Lived(lives, choices, i) && Continues(lives, choices, i)
  }

  /** All lives so far were lived, and all but the last went on. */
  ghost predicate Ended(lives: seq<Life>, choices: seq<seq<Choice>>) {
    && 0 < |choices| <= |lives|
    && (forall i :: 0 <= i < |choices| ==> Lived(lives, choices, i))
    && (forall i :: 0 <= i < |choices| - 1 ==> Continues(lives, choices, i))
    && !Continues(lives, choices, |choices| - 1) && Harms(lives, choices, |choices| - 1)
  }

  lemma OneMoreLife(lives: seq<Life>, choices: seq<seq<Choice>>, more: seq<Choice>)
    requires WentOn(lives, choices) && |choices| < |lives|
    requires var k := |choices|;
      |more| == |lives[k].events| && AllPossible(Birth(lives, choices, k), lives[k].events, more)
    ensures var k, longer := |choices|, choices + [more];
      var end := Story(Birth(lives, choices, k), lives[k].events, more, |lives[k].events|);
      && (Restarts(end, lives[k]) ==> WentOn(lives, longer) && Birth(lives, longer, k + 1) == Reborn(end, lives[k]))
      && (!Restarts(end, lives[k]) && !Unharmed(end, lives[k]) ==> Ended(lives, longer))
  {
    hide Birth, Story, AllPossible, Lived, Continues, Harms, Restarts, Unharmed, Reborn;
    LivesPrefix(lives, choices, more);
    LastLife(lives, choices + [more]);
  }

  /**
   * Run, crash anywhere, start again, any number of times. Every life is lived event by
   * event from what the one before left. The server is still there at the end if and only
   * if after every crash the entries left replay without error; otherwise it stops at the
   * first crash after which they do not. Without harmful entries it is still there.
   */
  method Survive(lives: seq<Life>, port: nat)
    returns (ok: bool, p: CommandProcessor, now: int, ghost choices: seq<seq<Choice>>)
    requires forall i, j :: 0 <= i < |lives| && 0 <= j < |lives[i].events| ==> Acceptable(lives[i].events[j])
    ensures |choices| <= |lives| && forall i :: 0 <= i < |choices| ==> Lived(lives, choices, i)
    ensures ok <==> |choices| == |lives| && forall i :: 0 <= i < |lives| ==> Continues(lives, choices, i)
    ensures !ok ==>
      && choices != [] && !Continues(lives, choices, |choices| - 1)
      && forall i :: 0 <= i < |choices| - 1 ==> Continues(lives, choices, i)
    ensures (forall i :: 0 <= i < |choices| ==> !Harms(lives, choices, i)) ==> ok
    ensures ok ==> Shows(p, Birth(lives, choices, |lives|)) && now == Birth(lives, choices, |lives|).now
  {
    hide Shows, Birth, Lived, Continues, Harms, Acceptable, Story, AllPossible, Restarts, Unharmed, Reborn;
    hide WentOn, Ended;
    FirstBirth(lives);
    p := Begin(port);
    now, choices := 0, [];
    for k := 0 to |lives|
      invariant |choices| == k && WentOn(lives, choices)
      invariant fresh(p) && fresh(p.db) && p.aof != null && fresh(p.aof)
      invariant forall i :: 0 <= i < |p.db.lru| ==> fresh(p.db.lru[i])
      invariant Shows(p, Birth(lives, choices, k)) && now == Birth(lives, choices, k).now
    {
      ghost var start := Birth(lives, choices, k);
      var again;
      ghost var lived;
      again, p, now, lived := LiveOnce(p, lives[k], port, now, start);
      OneMoreLife(lives, choices, lived);
      choices := choices + [lived];
      if !again {
        EndedFacts(lives, choices);
        return false, p, now, choices;
      }
    }
    WentOnFacts(lives, choices);
    return true, p, now, choices;
  }

  lemma WentOnFacts(lives: seq<Life>, choices: seq<seq<Choice>>)
    requires WentOn(lives, choices)
    ensures forall i :: 0 <= i < |choices| ==> Lived(lives, choices, i) && Continues(lives, choices, i)
  {
  }

  lemma EndedFacts(lives: seq<Life>, choices: seq<seq<Choice>>)
    requires Ended(lives, choices)
    ensures 0 < |choices| <= |lives| && forall i :: 0 <= i < |choices| ==> Lived(lives, choices, i)
    ensures forall i :: 0 <= i < |choices| - 1 ==> Continues(lives, choices, i)
    ensures !Continues(lives, choices, |choices| - 1) && Harms(lives, choices, |choices| - 1)
  {
  }
}
