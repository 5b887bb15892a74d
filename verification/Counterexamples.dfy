/** Runs of a healthy server whose log does not give its store back, or cannot be replayed at all. */
module Counterexamples {
  import opened Text
  import opened Values
  import opened Keyspace
  import opened Resp
  import opened CommandSpec
  import opened CommandFacts
  import opened Recovery

  // ---------------------------------------------------------------
  // A key is lost
  // ---------------------------------------------------------------

  function PersistEntry(key: string): Command { ["PERSIST", key] }

  lemma PersistName()
    ensures HandlerOf(Upper("PERSIST")) == Some(Persist) && Upper("PERSIST") != "QUIT"
  {
    assert Upper("PERSIST") == "PERSIST";
  }

  lemma PersistEntryOp(key: string)
    ensures Canonical(PersistEntry(key)) && OpOf(PersistEntry(key)) == PersistKey(key)
  {
    hide HandlerOf, Upper;
    PersistName();
  }

  function PExpireCall(key: string): Command { ["PEXPIRE", key, "99"] }

  lemma PExpireName()
    ensures HandlerOf(Upper("PEXPIRE")) == Some(PExpire) && Upper("PEXPIRE") != "QUIT"
    ensures ParseInteger("99") == Some(99)
  {
    assert Upper("PEXPIRE") == "PEXPIRE";
    assert IntToText(99) == "99" by { assert NatToText(9) == "9"; }
    IntegerRoundTrip(99);
  }

  lemma PExpirePlan(key: string)
    ensures PlanOf(PExpireCall(key), 501) == Some(ExpireKey(key, 600))
  {
    hide HandlerOf, Upper, ParseInteger;
    PExpireName();
  }

  /** SET at 500, PEXPIRE 99 at 501, PERSIST at 502. */
  function RescuedRun(key: string, value: string): seq<Step> {
    [Step(SetEntry(key, value), 500, [], true)] + [Step(PExpireCall(key), 501, [], true)]
      + [Step(PersistEntry(key), 502, [], true)]
  }

  /** What that run logs. */
  function RescuedLog(key: string, value: string): seq<Stamped> {
    [Stamped(SetEntry(key, value), 500)] + [Stamped(ExpiryEntry(key, 600), 501)] + [Stamped(PersistEntry(key), 502)]
  }

  /** A key alone in the keyspace. */
  function Alone(key: string, value: string, deadline: Option<int>): Keyspace {
    map[key := Item(Str(value), deadline)]
  }

  lemma AloneIsFresh(key: string, value: string, deadline: Option<int>, now: int)
    requires deadline.None? || now < deadline.value
    ensures Fresh(Alone(key, value, deadline), now) && Fresh(map[], now)
  {
  }

  lemma SetAlone(key: string, value: string, now: int)
    ensures Exec(map[], SetEntry(key, value), now) == Effect(Alone(key, value, None), Ok, [SetEntry(key, value)])
  {
    hide Exec, Canonical, SetEntry;
    SetEntryOp(key, value);
    CanonicalExec(map[], SetEntry(key, value), now);
    assert [SetEntry(key, value)] + [] == [SetEntry(key, value)];
  }

  lemma ExpireAlone(key: string, value: string)
    ensures var e := Exec(Alone(key, value, None), PExpireCall(key), 501);
            e.ks == Alone(key, value, Some(600)) && e.log == [ExpiryEntry(key, 600)]
  {
    hide Exec, PlanOf, PExpireCall, ExpiryEntry;
    PExpirePlan(key);
    ExecShape(Alone(key, value, None), PExpireCall(key), 501);
  }

  lemma PersistAlone(key: string, value: string)
    ensures var e := Exec(Alone(key, value, Some(600)), PersistEntry(key), 502);
            e.ks == Alone(key, value, None) && e.log == [PersistEntry(key)]
  {
    hide Exec, Canonical, PersistEntry;
    PersistEntryOp(key);
    CanonicalExec(Alone(key, value, Some(600)), PersistEntry(key), 502);
  }

  /** A step without eviction, on a keyspace in which nothing has expired. */
  lemma PlainStep(ks: Keyspace, arguments: Command, now: int)
    requires Fresh(ks, now)
    ensures var s := Step(arguments, now, [], true);
            && StepKeyspace(ks, s) == Exec(ks, arguments, now).ks
            && StepLog(ks, s) == Stamp(Exec(ks, arguments, now).log, now)
  {
    hide Exec;
    assert ks - ToSet([]) == ks;
  }

  lemma RunSnoc(steps: seq<Step>, s: Step)
    ensures StateAfter(steps + [s]) == StepKeyspace(StateAfter(steps), s)
    ensures LogAfter(steps + [s]) == LogAfter(steps) + StepLog(StateAfter(steps), s)
  {
    hide StepKeyspace, StepLog;
    assert (steps + [s])[..|steps|] == steps;
  }

  /** The log is the one this run writes, and the run keeps the key. */
  lemma RescuedRunLogs(key: string, value: string)
    ensures Ordered(RescuedRun(key, value))
    ensures LogAfter(RescuedRun(key, value)) == RescuedLog(key, value)
    ensures StateAfter(RescuedRun(key, value)) == Alone(key, value, None)
  {
    hide Exec, SetEntry, PExpireCall, PersistEntry, ExpiryEntry, StateAfter, LogAfter, StepKeyspace, StepLog;
    hide Fresh, Alone;
    hide Stamp;
    var a, b := Step(SetEntry(key, value), 500, [], true), Step(PExpireCall(key), 501, [], true);
    var c := Step(PersistEntry(key), 502, [], true);
    NothingRun();
    AloneIsFresh(key, value, None, 500);
    AloneIsFresh(key, value, None, 501);
    AloneIsFresh(key, value, Some(600), 502);
    SetAlone(key, value, 500);
    ExpireAlone(key, value);
    PersistAlone(key, value);
    PlainStep(map[], a.arguments, 500);
    PlainStep(Alone(key, value, None), b.arguments, 501);
    PlainStep(Alone(key, value, Some(600)), c.arguments, 502);
    RunSnoc([], a);
    RunSnoc([a], b);
    RunSnoc([a] + [b], c);
    assert [] + [a] == [a];
    StampSingle(SetEntry(key, value), 500);
    StampSingle(ExpiryEntry(key, 600), 501);
    StampSingle(PersistEntry(key), 502);
    assert [] + [Stamped(SetEntry(key, value), 500)] == [Stamped(SetEntry(key, value), 500)];
  }

  lemma NothingRun()
    ensures StateAfter([]) == map[] && LogAfter([]) == []
  {
  }

  lemma RescuedWellFormed(key: string, value: string, later: int)
    requires 502 <= later
    ensures WellFormed(RescuedLog(key, value), later)
  {
    hide Canonical, SetEntry, ExpiryEntry, PersistEntry;
    SetEntryOp(key, value);
    ExpiryEntryOp(key, 600);
    PersistEntryOp(key);
  }

  /** Restarting after the old deadline, one entry at a time. */
  lemma ExpiryPassed(key: string, value: string, later: int)
    requires 600 <= later
    ensures var e := RedoOne(Alone(key, value, None), Stamped(ExpiryEntry(key, 600), later));
            e.ks == map[] && !e.reply.Failure?
  {
    hide Exec, Canonical, ExpiryEntry;
    ExpiryEntryOp(key, 600);
    AloneIsFresh(key, value, None, later);
    CanonicalExec(Alone(key, value, None), ExpiryEntry(key, 600), later);
    assert Alone(key, value, None) - {key} == map[];
  }

  lemma PersistMissing(key: string, later: int)
    ensures var e := RedoOne(map[], Stamped(PersistEntry(key), later)); e.ks == map[] && !e.reply.Failure?
  {
    hide Exec, Canonical, PersistEntry;
    PersistEntryOp(key);
    assert Fresh(map[], later);
    CanonicalExec(map[], PersistEntry(key), later);
  }

  lemma RescuedRestart(key: string, value: string, later: int)
    requires 600 <= later
    ensures Redo(map[], Restamped(RescuedLog(key, value), later)) == map[]
    ensures Succeeds(map[], Restamped(RescuedLog(key, value), later))
  {
    hide RedoOne, Exec, SetEntry, ExpiryEntry, PersistEntry, Redo, Succeeds;
    var a, b, c := SetEntry(key, value), ExpiryEntry(key, 600), PersistEntry(key);
    var x, y, z := Stamped(a, later), Stamped(b, later), Stamped(c, later);
    assert Restamped(RescuedLog(key, value), later) == [x] + [y] + [z];
    RedoAppend(map[], [x], [y]);
    RedoAppend(map[], [x] + [y], [z]);
    AloneIsFresh(key, value, None, later);
    RedoSet(map[], key, value, later);
    assert map[][key := Item(Str(value), None)] == Alone(key, value, None);
    ExpiryPassed(key, value, later);
    PersistMissing(key, later);
    RedoSingle(map[], x);
    RedoSingle(Alone(key, value, None), y);
    RedoSingle(map[], z);
  }

  /**
   * A key that is set, given a deadline and then made permanent is kept by the live store
   * for good, but is lost by every restart after the old deadline, without any error.
   */
  lemma RescuedKeyIsLost(key: string, value: string, later: int)
    requires 600 <= later
    ensures LogAfter(RescuedRun(key, value)) == RescuedLog(key, value) && Ordered(RescuedRun(key, value))
    ensures WellFormed(RescuedLog(key, value), later)
    ensures Live(StateAfter(RescuedRun(key, value)), later) == Alone(key, value, None)
    ensures Redo(map[], Restamped(RescuedLog(key, value), later)) == map[]
    ensures Succeeds(map[], Restamped(RescuedLog(key, value), later))
  {
    hide Redo, Succeeds, RescuedLog, RescuedRun, StateAfter, LogAfter, WellFormed;
    RescuedRunLogs(key, value);
    RescuedWellFormed(key, value, later);
    AloneIsFresh(key, value, None, later);
    RescuedRestart(key, value, later);
  }

  // ---------------------------------------------------------------
  // A server does not start again
  // ---------------------------------------------------------------

  function AppendCall(key: string, text: string): Command { ["APPEND", key, text] }

  function RPushCall(key: string, element: string): Command { ["RPUSH", key, element] }

  lemma UpdateNames()
    ensures HandlerOf(Upper("APPEND")) == Some(Append) && Upper("APPEND") != "QUIT"
    ensures HandlerOf(Upper("RPUSH")) == Some(RPush) && Upper("RPUSH") != "QUIT"
  {
    assert Upper("APPEND") == "APPEND";
    assert Upper("RPUSH") == "RPUSH";
  }

  lemma AppendCallOp(key: string, text: string)
    ensures Canonical(AppendCall(key, text)) && OpOf(AppendCall(key, text)) == Update(key, AppendText(text))
  {
    hide HandlerOf, Upper;
    UpdateNames();
  }

  lemma RPushCallOp(key: string, element: string)
    ensures Canonical(RPushCall(key, element))
    ensures OpOf(RPushCall(key, element)) == Update(key, PushValues([element], Right))
  {
    hide HandlerOf, Upper;
    UpdateNames();
    assert RPushCall(key, element)[2..] == [element];
  }

  lemma AppendAlone(key: string, value: string, text: string)
    ensures var e := Exec(Alone(key, value, Some(600)), AppendCall(key, text), 502);
            e.ks == Alone(key, value + text, Some(600)) && e.log == [AppendCall(key, text)]
  {
    hide Exec, Canonical, AppendCall;
    AppendCallOp(key, text);
    CanonicalExec(Alone(key, value, Some(600)), AppendCall(key, text), 502);
  }

  /** APPEND on a missing key makes it a string without a deadline. */
  lemma AppendMissing(key: string, text: string, now: int)
    ensures var e := RedoOne(map[], Stamped(AppendCall(key, text), now));
            e.ks == Alone(key, text, None) && !e.reply.Failure?
  {
    hide Exec, Canonical, AppendCall;
    AppendCallOp(key, text);
    assert Fresh(map[], now);
    CanonicalExec(map[], AppendCall(key, text), now);
    assert "" + text == text;
  }

  lemma RPushMissing(key: string, element: string, now: int)
    ensures var e := Exec(map[], RPushCall(key, element), now);
            e.ks == map[key := Item(List([element]), None)] && e.log == [RPushCall(key, element)]
  {
    hide Exec, Canonical, RPushCall;
    RPushCallOp(key, element);
    CanonicalExec(map[], RPushCall(key, element), now);
    assert [element][..0] == [];
    assert PushAll([], [element], Right) == [element];
  }

  lemma RPushOnText(key: string, text: string, element: string, now: int)
    ensures RedoOne(Alone(key, text, None), Stamped(RPushCall(key, element), now)).reply == Failure(Store(WrongType))
  {
    hide Exec, Canonical, RPushCall;
    RPushCallOp(key, element);
    AloneIsFresh(key, text, None, now);
    CanonicalExec(Alone(key, text, None), RPushCall(key, element), now);
  }

  /** SET at 500, PEXPIRE 99 at 501, APPEND at 502; the key expires at 600; RPUSH at 700. */
  function ReusedRun(key: string, value: string, text: string, element: string): seq<Step> {
    [Step(SetEntry(key, value), 500, [], true)] + [Step(PExpireCall(key), 501, [], true)]
      + [Step(AppendCall(key, text), 502, [], true)] + [Step(RPushCall(key, element), 700, [], true)]
  }

  /** What that run logs. */
  function ReusedLog(key: string, value: string, text: string, element: string): seq<Stamped> {
    [Stamped(SetEntry(key, value), 500)] + [Stamped(ExpiryEntry(key, 600), 501)]
      + [Stamped(AppendCall(key, text), 502)] + [Stamped(RPushCall(key, element), 700)]
  }

  lemma FirstTwo(key: string, value: string)
    ensures var steps := [Step(SetEntry(key, value), 500, [], true)] + [Step(PExpireCall(key), 501, [], true)];
            && StateAfter(steps) == Alone(key, value, Some(600))
            && LogAfter(steps) == [Stamped(SetEntry(key, value), 500)] + [Stamped(ExpiryEntry(key, 600), 501)]
  {
    hide Exec, SetEntry, PExpireCall, ExpiryEntry, StateAfter, LogAfter, StepKeyspace, StepLog, Fresh, Alone, Stamp;
    var a, b := Step(SetEntry(key, value), 500, [], true), Step(PExpireCall(key), 501, [], true);
    NothingRun();
    AloneIsFresh(key, value, None, 500);
    AloneIsFresh(key, value, None, 501);
    SetAlone(key, value, 500);
    ExpireAlone(key, value);
    PlainStep(map[], a.arguments, 500);
    PlainStep(Alone(key, value, None), b.arguments, 501);
    RunSnoc([], a);
    RunSnoc([a], b);
    assert [] + [a] == [a];
    StampSingle(SetEntry(key, value), 500);
    StampSingle(ExpiryEntry(key, 600), 501);
    assert [] + [Stamped(SetEntry(key, value), 500)] == [Stamped(SetEntry(key, value), 500)];
  }

  /** When the deadline has passed, a step sees an empty keyspace. */
  lemma StepAfterExpiry(key: string, value: string, s: Step)
    requires 600 <= s.time
    ensures StepKeyspace(Alone(key, value, Some(600)), s) == StepKeyspace(map[], s)
    ensures StepLog(Alone(key, value, Some(600)), s) == StepLog(map[], s)
  {
    hide Exec;
    var empty: Keyspace := map[];
    assert Live(Alone(key, value, Some(600)), s.time) == empty == Live(empty, s.time);
  }

  lemma ReusedRunLogs(key: string, value: string, text: string, element: string)
    ensures Ordered(ReusedRun(key, value, text, element))
    ensures LogAfter(ReusedRun(key, value, text, element)) == ReusedLog(key, value, text, element)
    ensures StateAfter(ReusedRun(key, value, text, element)) == map[key := Item(List([element]), None)]
  {
    hide Exec, SetEntry, PExpireCall, ExpiryEntry, AppendCall, RPushCall, StateAfter, LogAfter, StepKeyspace;
    hide StepLog, Fresh, Alone, Stamp;
    var first := [Step(SetEntry(key, value), 500, [], true)] + [Step(PExpireCall(key), 501, [], true)];
    var c, d := Step(AppendCall(key, text), 502, [], true), Step(RPushCall(key, element), 700, [], true);
    FirstTwo(key, value);
    AloneIsFresh(key, value, Some(600), 502);
    AppendAlone(key, value, text);
    PlainStep(Alone(key, value, Some(600)), c.arguments, 502);
    RunSnoc(first, c);
    AloneIsFresh(key, value, None, 700);
    StepAfterExpiry(key, value + text, d);
    RPushMissing(key, element, 700);
    PlainStep(map[], d.arguments, 700);
    RunSnoc(first + [c], d);
    StampSingle(AppendCall(key, text), 502);
    StampSingle(RPushCall(key, element), 700);
  }

  lemma ReusedWellFormed(key: string, value: string, text: string, element: string, later: int)
    requires 700 <= later
    ensures WellFormed(ReusedLog(key, value, text, element), later)
  {
    hide Canonical, SetEntry, ExpiryEntry, AppendCall, RPushCall;
    SetEntryOp(key, value);
    ExpiryEntryOp(key, 600);
    AppendCallOp(key, text);
    RPushCallOp(key, element);
  }

  /** Replayed after the deadline, APPEND recreates the key as a string, and RPUSH fails on it. */
  lemma ReusedReplayFails(key: string, value: string, text: string, element: string, later: int)
    requires 700 <= later
    ensures !Succeeds(map[], Restamped(ReusedLog(key, value, text, element), later))
  {
    hide RedoOne, Exec, SetEntry, ExpiryEntry, AppendCall, RPushCall, Redo, Succeeds;
    var x, y := Stamped(SetEntry(key, value), later), Stamped(ExpiryEntry(key, 600), later);
    var z, u := Stamped(AppendCall(key, text), later), Stamped(RPushCall(key, element), later);
    assert Restamped(ReusedLog(key, value, text, element), later) == [x] + [y] + [z] + [u];
    RedoAppend(map[], [x], [y]);
    RedoAppend(map[], [x] + [y], [z]);
    RedoAppend(map[], [x] + [y] + [z], [u]);
    AloneIsFresh(key, value, None, later);
    RedoSet(map[], key, value, later);
    assert map[][key := Item(Str(value), None)] == Alone(key, value, None);
    ExpiryPassed(key, value, later);
    AppendMissing(key, text, later);
    RPushOnText(key, text, element, later);
    RedoSingle(map[], x);
    RedoSingle(Alone(key, value, None), y);
    RedoSingle(map[], z);
    RedoSingle(Alone(key, text, None), u);
  }

  /**
   * A server whose every command succeeded can write a log with which it never starts again:
   * a string with a deadline is appended to, expires, and its name is used for a list.
   */
  lemma StartIsRefused(key: string, value: string, text: string, element: string, later: int)
    requires 700 <= later
    ensures LogAfter(ReusedRun(key, value, text, element)) == ReusedLog(key, value, text, element)
    ensures Ordered(ReusedRun(key, value, text, element))
    ensures WellFormed(ReusedLog(key, value, text, element), later)
    ensures Succeeds(map[], ReusedLog(key, value, text, element))
    ensures !Succeeds(map[], Restamped(ReusedLog(key, value, text, element), later))
  {
    hide Redo, Succeeds, ReusedLog, ReusedRun, StateAfter, LogAfter, WellFormed, Restamped;
    ReusedRunLogs(key, value, text, element);
    RunIsItsLog(ReusedRun(key, value, text, element));
    ReusedWellFormed(key, value, text, element, later);
    ReusedReplayFails(key, value, text, element, later);
  }
}
