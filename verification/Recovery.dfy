/**
 * The append-only log as a replica of the store. Live execution and replay are the same
 * commands run at different times; this module says exactly when they agree.
 */
module Recovery {
  import opened Text
  import opened Values
  import opened Keyspace
  import opened Resp
  import opened CommandSpec
  import opened CommandFacts

  /** A log entry and the time at which the live store wrote it. */
  datatype Stamped = Stamped(command: Command, time: int)

  /** Redoing a log, each entry at its own time. */
  ghost function Redo(ks: Keyspace, log: seq<Stamped>): Keyspace {
    if log == [] then ks else RedoOne(Redo(ks, log[..|log| - 1]), log[|log| - 1]).ks
  }

  ghost function RedoOne(ks: Keyspace, e: Stamped): Effect {
    Exec(Live(ks, e.time), e.command, e.time)
  }

  /** No entry answers with an error while the log is redone. */
  ghost predicate Succeeds(ks: Keyspace, log: seq<Stamped>) {
    log == [] ||
    (Succeeds(ks, log[..|log| - 1]) && !RedoOne(Redo(ks, log[..|log| - 1]), log[|log| - 1]).reply.Failure?)
  }

  function Stamp(log: seq<Command>, time: int): (r: seq<Stamped>)
    ensures |r| == |log|
  {
    seq(|log|, i requires 0 <= i < |log| => Stamped(log[i], time))
  }

  /** The same log redone all at one time, as a restart does. */
  function Restamped(log: seq<Stamped>, time: int): (r: seq<Stamped>)
    ensures |r| == |log|
  {
    seq(|log|, i requires 0 <= i < |log| => Stamped(log[i].command, time))
  }

  function CommandsOf(log: seq<Stamped>): (r: seq<Command>)
    ensures |r| == |log|
  {
    seq(|log|, i requires 0 <= i < |log| => log[i].command)
  }

  lemma {:induction false} RedoAppend(ks: Keyspace, a: seq<Stamped>, b: seq<Stamped>)
    ensures Redo(ks, a + b) == Redo(Redo(ks, a), b)
    ensures Succeeds(ks, a + b) <==> Succeeds(ks, a) && Succeeds(Redo(ks, a), b)
    decreases |b|
  {
    hide RedoOne;
    if b == [] {
      assert a + b == a;
    } else {
      assert (a + b)[..|a + b| - 1] == a + b[..|b| - 1];
      RedoAppend(ks, a, b[..|b| - 1]);
    }
  }

  lemma RedoSingle(ks: Keyspace, e: Stamped)
    ensures Redo(ks, [e]) == RedoOne(ks, e).ks
    ensures Succeeds(ks, [e]) <==> !RedoOne(ks, e).reply.Failure?
  {
    hide RedoOne;
    assert [e][..0] == [];
  }

  // ---------------------------------------------------------------
  // Redoing a command's own log entries at its own time
  // ---------------------------------------------------------------

  /** Nothing in the keyspace has expired. */
  ghost predicate Fresh(ks: Keyspace, now: int) {
    Live(ks, now) == ks
  }

  lemma LiveIsFresh(ks: Keyspace, now: int)
    ensures Fresh(Live(ks, now), now)
  {
  }

  lemma PerformStaysFresh(ks: Keyspace, op: Op, arguments: Command, now: int)
    requires Fresh(ks, now) && OpOk(op, now)
    ensures Fresh(Perform(ks, op, arguments, now).ks, now)
  {
    hide Modify, DeletedCount, ToSet;
    LiveKeys(ks, now);
    if op.StoreMany? {
      StoreAllFresh(ks, op.pairs, now);
    }
  }

  lemma {:induction false} StoreAllFresh(ks: Keyspace, pairs: seq<(string, string)>, now: int)
    requires Fresh(ks, now)
    ensures Fresh(StoreAll(ks, pairs), now)
  {
    if pairs != [] {
      StoreAllFresh(ks, pairs[..|pairs| - 1], now);
      LiveKeys(StoreAll(ks, pairs[..|pairs| - 1]), now);
    }
  }

  lemma ExecStaysFresh(ks: Keyspace, arguments: Command, now: int)
    requires Fresh(ks, now)
    ensures Fresh(Exec(ks, arguments, now).ks, now)
  {
    hide Exec, PlanOf, Perform;
    ExecShape(ks, arguments, now);
    match PlanOf(arguments, now)
    case Some(op) => PerformStaysFresh(ks, op, arguments, now);
    case None =>
  }

  lemma RedoDel(ks: Keyspace, key: string, now: int)
    requires Fresh(ks, now)
    ensures RedoOne(ks, Stamped(DelEntry(key), now)).ks == ks - {key}
    ensures !RedoOne(ks, Stamped(DelEntry(key), now)).reply.Failure?
  {
    hide Exec, Canonical, DelEntry;
    DelEntryOp(key);
    CanonicalExec(ks, DelEntry(key), now);
    assert ToSet([key]) == {key};
  }

  lemma RedoExpiry(ks: Keyspace, key: string, deadline: int, now: int)
    requires Fresh(ks, now) && IsInt64(deadline) && now < deadline && key in ks
    ensures RedoOne(ks, Stamped(ExpiryEntry(key, deadline), now)).ks == ks[key := Item(ks[key].value, Some(deadline))]
    ensures !RedoOne(ks, Stamped(ExpiryEntry(key, deadline), now)).reply.Failure?
  {
    hide Exec, Canonical, ExpiryEntry;
    ExpiryEntryOp(key, deadline);
    CanonicalExec(ks, ExpiryEntry(key, deadline), now);
  }

  lemma RedoSet(ks: Keyspace, key: string, value: string, now: int)
    requires Fresh(ks, now)
    ensures RedoOne(ks, Stamped(SetEntry(key, value), now)).ks == ks[key := Item(Str(value), None)]
    ensures !RedoOne(ks, Stamped(SetEntry(key, value), now)).reply.Failure?
  {
    hide Exec, Canonical, SetEntry;
    SetEntryOp(key, value);
    CanonicalExec(ks, SetEntry(key, value), now);
  }

  lemma RedoFlush(ks: Keyspace, now: int)
    requires Fresh(ks, now)
    ensures RedoOne(ks, Stamped(FlushEntry(), now)).ks == map[]
    ensures !RedoOne(ks, Stamped(FlushEntry(), now)).reply.Failure?
  {
    hide Exec, Canonical, FlushEntry;
    FlushEntryOp();
    CanonicalExec(ks, FlushEntry(), now);
  }

  lemma StampSingle(c: Command, now: int)
    ensures Stamp([c], now) == [Stamped(c, now)]
  {
  }

  /** SET with a deadline logs two entries; together they redo it. */
  lemma RedoSetWithExpiry(ks: Keyspace, key: string, value: string, deadline: int, now: int)
    requires Fresh(ks, now) && IsInt64(deadline) && now < deadline
    ensures var log := Stamp([SetEntry(key, value)] + [ExpiryEntry(key, deadline)], now);
            Redo(ks, log) == ks[key := Item(Str(value), Some(deadline))] && Succeeds(ks, log)
  {
    hide RedoOne, SetEntry, ExpiryEntry;
    var first, second := Stamped(SetEntry(key, value), now), Stamped(ExpiryEntry(key, deadline), now);
    var middle := ks[key := Item(Str(value), None)];
    assert Fresh(middle, now) by { LiveKeys(ks, now); }
    RedoSet(ks, key, value, now);
    RedoExpiry(middle, key, deadline, now);
    assert Stamp([SetEntry(key, value)] + [ExpiryEntry(key, deadline)], now) == [first] + [second];
    RedoSingle(ks, first);
    RedoSingle(middle, second);
    RedoAppend(ks, [first], [second]);
    assert middle[key := Item(Str(value), Some(deadline))] == ks[key := Item(Str(value), Some(deadline))];
  }

  /** The entries an operation logs, redone at the same time, have exactly the operation's effect. */
  lemma RedoOperation(ks: Keyspace, op: Op, arguments: Command, now: int)
    requires Fresh(ks, now) && OpOk(op, now)
    requires Exec(ks, arguments, now) == Perform(ks, op, arguments, now)
    requires Perform(ks, op, arguments, now).log != []
    ensures var log := Stamp(Perform(ks, op, arguments, now).log, now);
            Redo(ks, log) == Perform(ks, op, arguments, now).ks && Succeeds(ks, log)
  {
    hide Exec, Redo, Succeeds, Modify, DelEntry, SetEntry, ExpiryEntry, FlushEntry, Stamp, StoreAll, ToSet;
    hide DeletedCount;
    match op
    case Flush =>
      StampSingle(FlushEntry(), now);
      RedoFlush(ks, now);
      RedoSingle(ks, Stamped(FlushEntry(), now));
    case ExpireKey(key, deadline) =>
      if deadline <= now {
        StampSingle(DelEntry(key), now);
        RedoDel(ks, key, now);
        RedoSingle(ks, Stamped(DelEntry(key), now));
      } else {
        StampSingle(ExpiryEntry(key, deadline), now);
        RedoExpiry(ks, key, deadline, now);
        RedoSingle(ks, Stamped(ExpiryEntry(key, deadline), now));
      }
    case StoreString(key, value, _, _, expiry) =>
      if expiry.Some? {
        RedoSetWithExpiry(ks, key, value, expiry.value, now);
      } else {
        assert [SetEntry(key, value)] + [] == [SetEntry(key, value)];
        StampSingle(SetEntry(key, value), now);
        RedoSet(ks, key, value, now);
        RedoSingle(ks, Stamped(SetEntry(key, value), now));
      }
    case _ =>
      StampSingle(arguments, now);
      RedoSingle(ks, Stamped(arguments, now));
  }

  /** Redoing what a command logged, at the time it ran, redoes the command. */
  lemma LogRedoesCommand(ks: Keyspace, arguments: Command, now: int)
    requires Fresh(ks, now) && AllProper(ks)
    ensures var log := Stamp(Exec(ks, arguments, now).log, now);
            Redo(ks, log) == Exec(ks, arguments, now).ks && Succeeds(ks, log)
  {
    hide Exec, PlanOf, Perform, OpOk, RedoOne;
    ExecShape(ks, arguments, now);
    if Exec(ks, arguments, now).log == [] {
      SilentChangesNothing(ks, arguments, now);
    } else {
      RedoOperation(ks, PlanOf(arguments, now).value, arguments, now);
    }
  }

  // ---------------------------------------------------------------
  // Whole runs of the live store
  // ---------------------------------------------------------------

  /**
   * One step of the live store: at `time` it evicts some keys (in any order, for any
   * reason), then either runs a command or refuses to.
   */
  datatype Step = Step(arguments: Command, time: int, evicted: seq<string>, ran: bool)

  ghost function AfterEviction(ks: Keyspace, s: Step): Keyspace {
    Live(ks, s.time) - ToSet(s.evicted)
  }

  ghost function StepKeyspace(ks: Keyspace, s: Step): Keyspace {
    if s.ran then Exec(AfterEviction(ks, s), s.arguments, s.time).ks else AfterEviction(ks, s)
  }

  function DelEntries(keys: seq<string>): (r: seq<Command>)
    ensures |r| == |keys|
  {
    seq(|keys|, i requires 0 <= i < |keys| => DelEntry(keys[i]))
  }

  /** Evictions are logged before the command's own entries. */
  ghost function StepLog(ks: Keyspace, s: Step): seq<Stamped> {
    Stamp(DelEntries(s.evicted), s.time)
      + if s.ran then Stamp(Exec(AfterEviction(ks, s), s.arguments, s.time).log, s.time) else []
  }

  /** What a step hands to the log, without the times. */
  ghost function StepEntries(ks: Keyspace, s: Step): seq<Command> {
    DelEntries(s.evicted) + if s.ran then Exec(AfterEviction(ks, s), s.arguments, s.time).log else []
  }

  lemma StepLogIsStamped(ks: Keyspace, s: Step)
    ensures StepLog(ks, s) == Stamp(StepEntries(ks, s), s.time)
  {
    hide Exec, AfterEviction, DelEntries;
  }

  lemma {:induction false} RedoEvictions(ks: Keyspace, keys: seq<string>, now: int)
    requires Fresh(ks, now)
    ensures Redo(ks, Stamp(DelEntries(keys), now)) == ks - ToSet(keys)
    ensures Succeeds(ks, Stamp(DelEntries(keys), now))
  {
    hide RedoOne, DelEntry;
    if keys == [] {
      assert ks - ToSet(keys) == ks;
    } else {
      var init, key := keys[..|keys| - 1], keys[|keys| - 1];
      RedoEvictions(ks, init, now);
      var log := Stamp(DelEntries(keys), now);
      assert log[..|log| - 1] == Stamp(DelEntries(init), now);
      assert Fresh(ks - ToSet(init), now) by { LiveKeys(ks, now); }
      RedoDel(ks - ToSet(init), key, now);
      assert ToSet(keys) == ToSet(init) + {key} by { assert keys == init + [key]; }
      assert ks - ToSet(init) - {key} == ks - ToSet(keys);
    }
  }

  /** Redoing a step's log entries from the same unexpired keyspace redoes the step. */
  lemma LogRedoesStep(ks: Keyspace, s: Step)
    requires AllProper(ks)
    ensures Redo(Live(ks, s.time), StepLog(ks, s)) == StepKeyspace(ks, s)
    ensures Succeeds(Live(ks, s.time), StepLog(ks, s))
    ensures Fresh(StepKeyspace(ks, s), s.time) && AllProper(StepKeyspace(ks, s))
  {
    hide Exec, RedoOne, Stamp, DelEntries, Redo, Succeeds;
    var live, base := Live(ks, s.time), AfterEviction(ks, s);
    LiveIsFresh(ks, s.time);
    RedoEvictions(live, s.evicted, s.time);
    assert Fresh(base, s.time) by { LiveKeys(live, s.time); }
    assert AllProper(base);
    if s.ran {
      LogRedoesCommand(base, s.arguments, s.time);
      ExecStaysFresh(base, s.arguments, s.time);
      ExecKeepsProper(base, s.arguments, s.time);
      RedoAppend(live, Stamp(DelEntries(s.evicted), s.time), Stamp(Exec(base, s.arguments, s.time).log, s.time));
    } else {
      assert Stamp(DelEntries(s.evicted), s.time) + [] == Stamp(DelEntries(s.evicted), s.time);
    }
  }

  /** Only what is unexpired matters for what is redone next. */
  lemma {:induction false} RedoFromLive(ks: Keyspace, log: seq<Stamped>, now: int)
    requires forall i :: 0 <= i < |log| ==> log[i].time == now
    ensures Live(Redo(ks, log), now) == Live(Redo(Live(ks, now), log), now)
    ensures Succeeds(ks, log) <==> Succeeds(Live(ks, now), log)
  {
    hide Exec;
    if log == [] {
      LiveTwice(ks, now, now);
    } else {
      RedoFromLive(ks, log[..|log| - 1], now);
    }
  }

  ghost function StateAfter(steps: seq<Step>): Keyspace {
    if steps == [] then map[] else StepKeyspace(StateAfter(steps[..|steps| - 1]), steps[|steps| - 1])
  }

  ghost function LogAfter(steps: seq<Step>): seq<Stamped> {
    if steps == [] then []
    else LogAfter(steps[..|steps| - 1]) + StepLog(StateAfter(steps[..|steps| - 1]), steps[|steps| - 1])
  }

  /** The clock never goes back. */
  predicate Ordered(steps: seq<Step>) {
    forall i, j :: 0 <= i < j < |steps| ==> steps[i].time <= steps[j].time
  }

  ghost function LastTime(steps: seq<Step>): int {
    if steps == [] then 0 else steps[|steps| - 1].time
  }

  lemma StepLogTimes(ks: Keyspace, s: Step)
    ensures forall i :: 0 <= i < |StepLog(ks, s)| ==> StepLog(ks, s)[i].time == s.time
  {
    hide Exec;
  }

  /** One more step keeps store and log in agreement; `log` may be any log that agrees so far. */
  lemma StepAgrees(ks: Keyspace, log: seq<Stamped>, s: Step)
    requires AllProper(ks)
    requires Live(Redo(map[], log), s.time) == Live(ks, s.time)
    requires Succeeds(map[], log)
    ensures Live(Redo(map[], log + StepLog(ks, s)), s.time) == StepKeyspace(ks, s)
    ensures Succeeds(map[], log + StepLog(ks, s))
    ensures AllProper(StepKeyspace(ks, s)) && Fresh(StepKeyspace(ks, s), s.time)
  {
    hide Redo, Succeeds, StepLog, StepKeyspace;
    RedoAppend(map[], log, StepLog(ks, s));
    StepLogTimes(ks, s);
    RedoFromLive(Redo(map[], log), StepLog(ks, s), s.time);
    LogRedoesStep(ks, s);
  }

  /** For every run, the live store is what redoing its log, entry by entry at its time, gives. */
  lemma {:induction false} RunIsItsLog(steps: seq<Step>)
    requires Ordered(steps)
    ensures Live(Redo(map[], LogAfter(steps)), LastTime(steps)) == StateAfter(steps)
    ensures Succeeds(map[], LogAfter(steps))
    ensures AllProper(StateAfter(steps))
  {
    if steps != [] {
      var init, s := steps[..|steps| - 1], steps[|steps| - 1];
      RunIsItsLog(init);
      var redone := Redo(map[], LogAfter(init));
      if init == [] {
        assert Live(redone, s.time) == Live(StateAfter(init), s.time);
      } else {
        LiveTwice(redone, LastTime(init), s.time);
      }
      hide StepLog, StepKeyspace, Redo, Succeeds;
      StepAgrees(StateAfter(init), LogAfter(init), s);
    }
  }

  // ---------------------------------------------------------------
  // Restarting: redoing the log at one later time
  // ---------------------------------------------------------------

  /** A key that is alive at `t` and whose deadline passes before the restart at `later`. */
  ghost predicate Doomed(ks: Keyspace, key: string, t: int, later: int) {
    key in ks && ks[key].deadline.Some? && t < ks[key].deadline.value <= later
  }

  /**
   * The operations that a restart at `later` cannot redo: the key they act on has already
   * been dropped, because replaying its PEXPIREAT deleted it at once. They either rescue
   * the key in the live store, or recreate it, without a deadline, in the replayed one.
   */
  ghost predicate Harmful(ks: Keyspace, op: Op, t: int, later: int) {
    match op
    case PersistKey(key) => Doomed(ks, key, t, later)
    case ExpireKey(key, deadline) => Doomed(ks, key, t, later) && deadline > later
    case Update(key, m) => Doomed(ks, key, t, later) && Creates(m)
    case _ => false
  }

  /** On a doomed key: creating brings the key back in the replayed store only. */
  lemma UpdateDoomed(ks: Keyspace, key: string, m: Modifier, c: Command, t: int, later: int)
    requires Sized(m) && Doomed(ks, key, t, later)
    ensures PerformUpdate(Live(ks, later), key, m, c).ks == Live(PerformUpdate(Live(ks, t), key, m, c).ks, later)
            <==> !Creates(m)
    ensures !PerformUpdate(Live(ks, later), key, m, c).reply.Failure?
  {
    hide Modify, Creates, Recorded;
    LiveTwice(ks, t, later);
    assert ValueAt(Live(ks, later), key) == None;
    assert key !in Live(PerformUpdate(Live(ks, t), key, m, c).ks, later);
    if Creates(m) {
      CreationSucceeds(m);
      assert key in PerformUpdate(Live(ks, later), key, m, c).ks;
    } else {
      MissingStaysMissing(m);
    }
  }

  /** On any other key both stores see the same value. */
  lemma UpdateSame(ks: Keyspace, key: string, m: Modifier, c: Command, t: int, later: int)
    requires t <= later && !Doomed(ks, key, t, later)
    ensures PerformUpdate(Live(ks, later), key, m, c).ks == Live(PerformUpdate(Live(ks, t), key, m, c).ks, later)
    ensures PerformUpdate(Live(ks, later), key, m, c).reply == PerformUpdate(Live(ks, t), key, m, c).reply
  {
    hide Modify, Creates, Recorded;
    LiveTwice(ks, t, later);
    assert ValueAt(Live(ks, later), key) == ValueAt(Live(ks, t), key);
  }

  lemma {:induction false} StoreAllLive(ks: Keyspace, pairs: seq<(string, string)>, now: int)
    ensures Live(StoreAll(ks, pairs), now) == StoreAll(Live(ks, now), pairs)
  {
    if pairs != [] {
      StoreAllLive(ks, pairs[..|pairs| - 1], now);
    }
  }

  /** One entry, redone at its own time and at the restart: the two agree exactly unless it is harmful. */
  lemma OperationExact(ks: Keyspace, op: Op, c: Command, t: int, later: int)
    requires t <= later && OpOk(op, t) && Unconditional(op)
    ensures Perform(Live(ks, later), op, c, later).ks == Live(Perform(Live(ks, t), op, c, t).ks, later)
            <==> !Harmful(ks, op, t, later)
    ensures !Harmful(ks, op, t, later) ==>
            (Perform(Live(ks, later), op, c, later).reply.Failure? ==> Perform(Live(ks, t), op, c, t).reply.Failure?)
  {
    hide PerformUpdate, ToSet, DeletedCount, DelEntry, SetEntry, ExpiryEntry, FlushEntry;
    LiveTwice(ks, t, later);
    match op
    case Update(key, m) =>
      if Doomed(ks, key, t, later) {
        UpdateDoomed(ks, key, m, c, t, later);
      } else {
        UpdateSame(ks, key, m, c, t, later);
      }
    case StoreMany(pairs) => StoreAllLive(Live(ks, t), pairs, later);
    case PersistKey(key) =>
      if Doomed(ks, key, t, later) {
        assert key in Live(Perform(Live(ks, t), op, c, t).ks, later);
      }
    case ExpireKey(key, deadline) =>
      if Harmful(ks, op, t, later) {
        assert key in Live(Perform(Live(ks, t), op, c, t).ks, later);
      }
    case _ =>
  }

  /** A log as the live store writes it. */
  ghost predicate WellFormed(log: seq<Stamped>, later: int) {
    && (forall i :: 0 <= i < |log| ==> Canonical(log[i].command) && log[i].time <= later)
    && (forall i, j :: 0 <= i < j < |log| ==> log[i].time <= log[j].time)
  }

  /** Restarting at `later` from this log gives what the live store would still hold then. */
  ghost predicate Recovers(log: seq<Stamped>, later: int) {
    Redo(map[], Restamped(log, later)) == Live(Redo(map[], log), later)
  }

  /** Entry `i` can be redone at `later`. */
  ghost predicate Harmless(log: seq<Stamped>, i: nat, later: int)
    requires i < |log| && Canonical(log[i].command)
  {
    !Harmful(Redo(map[], log[..i]), OpOf(log[i].command), log[i].time, later)
  }

  ghost predicate AllRecover(log: seq<Stamped>, n: nat, later: int)
    requires n <= |log|
  {
    forall i :: 0 <= i <= n ==> Recovers(log[..i], later)
  }

  ghost predicate AllHarmless(log: seq<Stamped>, n: nat, later: int)
    requires n <= |log| && WellFormed(log, later)
  {
    forall i :: 0 <= i < n ==> Harmless(log, i, later)
  }

  /** One more entry, on top of a log that recovers. */
  lemma RecoversOneMore(log: seq<Stamped>, n: nat, later: int)
    requires n < |log| && WellFormed(log, later)
    requires Recovers(log[..n], later)
    ensures Recovers(log[..n + 1], later) <==> Harmless(log, n, later)
    ensures Harmless(log, n, later) && Succeeds(map[], log[..n + 1]) && Succeeds(map[], Restamped(log[..n], later))
            ==> Succeeds(map[], Restamped(log[..n + 1], later))
  {
    hide Exec, Perform, Harmful, Canonical, OpOk;
    var init, next, e := log[..n], log[..n + 1], log[n];
    var ks := Redo(map[], init);
    assert next[..n] == init;
    assert Restamped(next, later)[..n] == Restamped(init, later);
    LiveTwice(ks, later, later);
    CanonicalExec(Live(ks, e.time), e.command, e.time);
    CanonicalExec(Live(ks, later), e.command, later);
    OperationExact(ks, OpOf(e.command), e.command, e.time, later);
  }

  lemma {:induction false} RecoversUpTo(log: seq<Stamped>, later: int, n: nat)
    requires n <= |log| && WellFormed(log, later)
    ensures AllRecover(log, n, later) <==> AllHarmless(log, n, later)
    ensures AllHarmless(log, n, later) && Succeeds(map[], log[..n]) ==> Succeeds(map[], Restamped(log[..n], later))
  {
    hide Harmless, Canonical, Exec, RedoOne, WellFormed;
    if n == 0 {
      assert log[..0] == [];
    } else {
      RecoversUpTo(log, later, n - 1);
      assert log[..n][..n - 1] == log[..n - 1];
      if Recovers(log[..n - 1], later) {
        hide Recovers, Succeeds;
        RecoversOneMore(log, n - 1, later);
      }
    }
  }

  /**
   * Recovery, exactly. A restart at `later`, after a crash at any point of the log, gives
   * the live store's contents as of that point, for every crash point, if and only if no
   * entry of the log is harmful; and then every entry replays without an error.
   */
  lemma RecoveryExact(log: seq<Stamped>, later: int)
    requires WellFormed(log, later)
    ensures AllRecover(log, |log|, later) <==> AllHarmless(log, |log|, later)
    ensures AllHarmless(log, |log|, later) && Succeeds(map[], log) ==> Succeeds(map[], Restamped(log, later))
  {
    hide AllHarmless, AllRecover, WellFormed;
    RecoversUpTo(log, later, |log|);
    assert log[..|log|] == log;
  }

  // ---------------------------------------------------------------
  // A condition on the log alone
  // ---------------------------------------------------------------

  /** The operation acts on the key. */
  predicate Touches(op: Op, key: string) {
    match op
    case Flush => true
    case Delete(keys) => key in keys
    case ExpireKey(k, _) => k == key
    case PersistKey(k) => k == key
    case StoreString(k, _, _, _, _) => k == key
    case StoreMany(pairs) => exists i :: 0 <= i < |pairs| && pairs[i].0 == key
    case Update(k, _) => k == key
  }

  /** SET, MSET, DEL, UNLINK and FLUSHALL do not look at what the key held. */
  predicate Overwrites(op: Op) {
    op.Flush? || op.Delete? || op.StoreString? || op.StoreMany?
  }

  /**
   * After a logged deadline that has passed by the restart, the next command on that key
   * before the deadline, if there is one, overwrites or deletes the key.
   */
  ghost predicate OverwrittenOnly(log: seq<Stamped>, later: int)
    requires WellFormed(log, later)
  {
    forall i, j :: 0 <= i < j < |log| ==>
      var expiry, next := OpOf(log[i].command), OpOf(log[j].command);
      expiry.ExpireKey? && expiry.deadline <= later && log[j].time < expiry.deadline && Touches(next, expiry.key)
      && (forall m :: i < m < j ==> !Touches(OpOf(log[m].command), expiry.key))
      ==> Overwrites(next)
  }

  lemma {:induction false} StoreAllOthers(ks: Keyspace, pairs: seq<(string, string)>, key: string)
    ensures (exists i :: 0 <= i < |pairs| && pairs[i].0 == key) ==>
            key in StoreAll(ks, pairs) && StoreAll(ks, pairs)[key].deadline.None?
    ensures !(exists i :: 0 <= i < |pairs| && pairs[i].0 == key) ==>
            (key in StoreAll(ks, pairs) <==> key in ks) && (key in ks ==> StoreAll(ks, pairs)[key] == ks[key])
  {
    if pairs != [] {
      StoreAllOthers(ks, pairs[..|pairs| - 1], key);
    }
  }

  /** Where a key's deadline can come from in one operation. */
  lemma DeadlineSource(ks: Keyspace, op: Op, c: Command, now: int, key: string)
    requires Unconditional(op)
    requires var after := Perform(ks, op, c, now).ks; key in after && after[key].deadline.Some?
    ensures var deadline := Perform(ks, op, c, now).ks[key].deadline;
            || op == ExpireKey(key, deadline.value)
            || (key in ks && ks[key].deadline == deadline && !(Touches(op, key) && Overwrites(op)))
  {
    hide Modify, DeletedCount, Recorded, DelEntry, SetEntry, ExpiryEntry, FlushEntry;
    if op.StoreMany? {
      StoreAllOthers(ks, op.pairs, key);
    }
  }

  /** A deadline in the store was set by a PEXPIREAT that nothing has overwritten since. */
  lemma {:induction false} DeadlineOrigin(log: seq<Stamped>, n: nat, key: string, later: int) returns (i: nat)
    requires n <= |log| && WellFormed(log, later)
    requires var ks := Redo(map[], log[..n]); key in ks && ks[key].deadline.Some?
    ensures i < n
    ensures OpOf(log[i].command) == ExpireKey(key, Redo(map[], log[..n])[key].deadline.value)
    ensures forall m :: i < m < n ==>
      !(Touches(OpOf(log[m].command), key) && Overwrites(OpOf(log[m].command)))
    decreases n
  {
    hide Perform, Canonical, Touches, Overwrites, Redo, WellFormed, Live;
    NothingYet(log);
    LiveKeys(Redo(map[], log[..n - 1]), log[n - 1].time);
    var e, before := log[n - 1], Live(Redo(map[], log[..n - 1]), log[n - 1].time);
    RedoPrefix(log, n, later);
    DeadlineSource(before, OpOf(e.command), e.command, e.time, key);
    if OpOf(e.command) == ExpireKey(key, Redo(map[], log[..n])[key].deadline.value) {
      i := n - 1;
    } else {
      i := DeadlineOrigin(log, n - 1, key, later);
    }
  }

  lemma NothingYet(log: seq<Stamped>)
    ensures Redo(map[], log[..0]) == map[]
  {
    assert log[..0] == [];
  }

  lemma RedoPrefix(log: seq<Stamped>, n: nat, later: int)
    requires 0 < n <= |log| && WellFormed(log, later)
    ensures var e := log[n - 1];
            Canonical(e.command) &&
            Redo(map[], log[..n]) ==
            Perform(Live(Redo(map[], log[..n - 1]), e.time), OpOf(e.command), e.command, e.time).ks
  {
    hide Perform, Canonical, Exec;
    var e := log[n - 1];
    assert log[..n][..n - 1] == log[..n - 1];
    CanonicalExec(Live(Redo(map[], log[..n - 1]), e.time), e.command, e.time);
  }

  /** If doomed keys are only ever overwritten, no entry is harmful. */
  lemma OverwrittenOnlyIsHarmless(log: seq<Stamped>, later: int)
    requires WellFormed(log, later) && OverwrittenOnly(log, later)
    ensures AllHarmless(log, |log|, later)
  {
    hide Canonical, Redo;
    forall j | 0 <= j < |log| ensures Harmless(log, j, later) {
      var ks, op := Redo(map[], log[..j]), OpOf(log[j].command);
      if Harmful(ks, op, log[j].time, later) {
        var key := op.key;
        var i := DeadlineOrigin(log, j, key, later);
        var deadline := ks[key].deadline.value;
        assert Touches(op, key) && !Overwrites(op);
        var m := NextTouch(log, i, j, key, later);
        assert false;
      }
    }
  }

  /** The first entry after `i`, and not after `j`, that acts on the key. */
  lemma NextTouch(log: seq<Stamped>, i: nat, j: nat, key: string, later: int) returns (m: nat)
    requires i < j < |log| && WellFormed(log, later)
    requires Touches(OpOf(log[j].command), key)
    ensures i < m <= j && Touches(OpOf(log[m].command), key)
    ensures forall k :: i < k < m ==> !Touches(OpOf(log[k].command), key)
    decreases j - i
  {
    hide Touches, Canonical;
    if k :| i < k < j && Touches(OpOf(log[k].command), key) {
      m := NextTouch(log, i, k, key, later);
    } else {
      m := j;
    }
  }

  /**
   * Recovery under a condition on the log alone: if every doomed key is overwritten or
   * left alone, a restart at any later time succeeds on every entry and gives the live
   * store's contents.
   */
  lemma RecoveryTheorem(log: seq<Stamped>, later: int)
    requires WellFormed(log, later) && OverwrittenOnly(log, later) && Succeeds(map[], log)
    ensures Succeeds(map[], Restamped(log, later)) && Recovers(log, later)
  {
    hide WellFormed, OverwrittenOnly, Recovers, AllHarmless;
    OverwrittenOnlyIsHarmless(log, later);
    RecoveryExact(log, later);
    assert Recovers(log[..|log|], later);
    assert log[..|log|] == log;
  }
}
