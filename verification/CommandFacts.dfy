/** Laws of single commands: failures are atomic, the log is complete, and replaying it redoes the command. */
module CommandFacts {
  import opened Text
  import opened Values
  import opened Keyspace
  import opened Resp
  import opened CommandSpec

  // ---------------------------------------------------------------
  // What a plan can be
  // ---------------------------------------------------------------

  /** Operations as the handlers produce them. */
  predicate OpOk(op: Op, now: int) {
    match op
    case ExpireKey(_, deadline) => IsInt64(deadline)
    case StoreString(_, _, _, _, expiry) => expiry.Some? ==> now < expiry.value && IsInt64(expiry.value)
    case Update(_, m) => NonEmpty(m) && Sized(m)
    case _ => true
  }

  lemma DeadlineLater(amount: int, unitMs: int, now: int)
    requires amount > 0 && (unitMs == 1 || unitMs == 1000)
    requires DeadlineOf(amount, unitMs, false, now).Some?
    ensures now < DeadlineOf(amount, unitMs, false, now).value
    ensures IsInt64(DeadlineOf(amount, unitMs, false, now).value)
  {
  }

  lemma {:induction false} SetOptionsOk(arguments: Command, i: nat, sofar: SetOptions, now: int)
    requires i <= |arguments|
    requires sofar.expiry.Some? ==> now < sofar.expiry.value && IsInt64(sofar.expiry.value)
    ensures var r := ReadSetOptions(arguments, i, sofar, now);
            r.GoodOptions? && r.options.expiry.Some? ==>
              now < r.options.expiry.value && IsInt64(r.options.expiry.value)
    decreases |arguments| - i
  {
    hide ParseInteger, Upper;
    if i < |arguments| {
      SetOptionsOk(arguments, i + 1, sofar.(onlyIfMissing := true), now);
      SetOptionsOk(arguments, i + 1, sofar.(onlyIfPresent := true), now);
      if i + 1 < |arguments| {
        var unit := if Upper(arguments[i]) == "EX" then 1000 else 1;
        var plan := SetExpiry(arguments[i + 1], unit, now);
        if plan.Do? {
          DeadlineLater(ParseInteger(arguments[i + 1]).value, unit, now);
          SetOptionsOk(arguments, i + 2, sofar.(expiry := Some(plan.op.deadline)), now);
        }
      }
    }
  }

  lemma ParsedIsSized(text: string)
    ensures ParseInteger(text).Some? ==> IsInt64(ParseInteger(text).value)
  {
  }

  lemma DeadlineSized()
    ensures forall amount, unitMs, absolute, now ::
      var d := DeadlineOf(amount, unitMs, absolute, now); d.Some? ==> IsInt64(d.value)
  {
  }

  lemma PairsLength(arguments: Command, from: nat)
    requires from <= |arguments| && (|arguments| - from) % 2 == 0
    ensures |PairsOf(arguments, from)| == (|arguments| - from) / 2
  {
  }

  lemma PlanSetOk(arguments: Command, now: int)
    requires |arguments| >= 3
    ensures var plan := PlanSet(arguments, now); plan.Do? ==> plan.op.StoreString? && OpOk(plan.op, now)
  {
    hide ReadSetOptions;
    SetOptionsOk(arguments, 3, NoOptions, now);
  }

  lemma PlanExpireOk(arguments: Command, now: int)
    requires |arguments| == 3
    ensures forall unitMs, absolute ::
      var plan := PlanExpire(arguments, unitMs, absolute, now); plan.Do? ==> OpOk(plan.op, now)
  {
    hide ParseInteger, DeadlineOf;
    DeadlineSized();
  }

  lemma PlanIncrementOk(arguments: Command, now: int)
    requires |arguments| == 3
    ensures forall negate ::
      var plan := PlanIncrement(arguments, negate); plan.Do? ==> OpOk(plan.op, now)
  {
    hide ParseInteger;
    ParsedIsSized(arguments[2]);
  }

  lemma ModifierOk(h: Handler, arguments: Command)
    requires ChangesValue(h) && ArityOk(h, |arguments|) && (h.HSet? ==> |arguments| % 2 == 0)
    ensures NonEmpty(ModifierOf(h, arguments)) && Sized(ModifierOf(h, arguments))
  {
    hide PairsOf;
    if h.HSet? {
      PairsLength(arguments, 2);
    }
  }

  /** Every operation that a handler starts is well-formed. */
  lemma PlanOk(h: Handler, arguments: Command, now: int)
    requires IsWrite(h) && ArityOk(h, |arguments|)
    ensures var plan := PlanWrite(h, arguments, now); plan.Do? ==> OpOk(plan.op, now)
  {
    hide PairsOf, PlanSet, PlanExpire, PlanIncrement, ModifierOf;
    if h.SetString? {
      PlanSetOk(arguments, now);
    } else if ChangesValue(h) {
      if h.HSet? ==> |arguments| % 2 == 0 {
        ModifierOk(h, arguments);
      }
    } else if |arguments| == 3 {
      PlanExpireOk(arguments, now);
      PlanIncrementOk(arguments, now);
    }
  }

  /** The operation that a command line starts at a time, if it gets that far. */
  function PlanOf(arguments: Command, now: int): Option<Op> {
    match Dispatch(arguments)
    case Write(h) =>
      (match PlanWrite(h, arguments, now)
       case Do(op) => Some(op)
       case Refuse(_) => None)
    case _ => None
  }

  /** A command either performs its operation or changes and logs nothing. */
  lemma ExecShape(ks: Keyspace, arguments: Command, now: int)
    ensures match PlanOf(arguments, now)
            case Some(op) => OpOk(op, now) && Exec(ks, arguments, now) == Perform(ks, op, arguments, now)
            case None => Exec(ks, arguments, now) == Effect(ks, Exec(ks, arguments, now).reply, [])
  {
    hide Query, Dispatch, PlanWrite, Perform, OpOk;
    var request := Dispatch(arguments);
    if request.Write? {
      PlanOk(request.h, arguments, now);
    }
  }

  // ---------------------------------------------------------------
  // Failures and silent commands
  // ---------------------------------------------------------------

  /** A command that answers with an error has changed nothing and logged nothing. */
  lemma FailureIsAtomic(ks: Keyspace, arguments: Command, now: int)
    requires Exec(ks, arguments, now).reply.Failure?
    ensures Exec(ks, arguments, now) == Effect(ks, Exec(ks, arguments, now).reply, [])
  {
    hide Exec, PlanOf, Modify;
    ExecShape(ks, arguments, now);
  }

  lemma SilentChange(v: Value, m: Modifier)
    requires Proper(v) && NonEmpty(m)
    requires Change(v, m).Accepted? && !Recorded(m, Change(v, m).answer)
    ensures Change(v, m).value == Some(v)
  {
    hide IncrementText, PopFrom, PushAll, PutAll, ToSet;
    match m
    case RemoveFields(names) => SameSize(v.fields, ToSet(names));
    case AddMembers(members) => SetGrows(v.members, ToSet(members));
    case RemoveMembers(members) => SetShrinks(v.members, ToSet(members));
    case _ =>
  }

  lemma AddsSomething(members: seq<string>)
    requires members != []
    ensures var none: set<string> := {}; |none + ToSet(members)| - |none| > 0
  {
    assert members[0] in ToSet(members);
  }

  lemma SilentOnMissing(m: Modifier)
    requires NonEmpty(m)
    requires Modify(None, m).Accepted? && !Recorded(m, Modify(None, m).answer)
    ensures Modify(None, m).value == None
  {
    hide ToSet;
    if m.AddMembers? {
      AddsSomething(m.added);
    }
  }

  lemma SilentUpdate(ks: Keyspace, key: string, m: Modifier, arguments: Command)
    requires AllProper(ks) && NonEmpty(m)
    requires PerformUpdate(ks, key, m, arguments).log == []
    ensures PerformUpdate(ks, key, m, arguments).ks == ks
  {
    hide Change, Creates, Blank, Recorded, NonEmpty, Proper;
    var r := Modify(ValueAt(ks, key), m);
    if r.Accepted? {
      if key in ks {
        SilentChange(ks[key].value, m);
      } else {
        SilentOnMissing(m);
      }
    }
  }

  lemma SameSize(fields: map<string, string>, names: set<string>)
    requires |fields| - |fields - names| <= 0
    ensures fields - names == fields
  {
    SetShrinks(fields.Keys, names);
    assert (fields - names).Keys == fields.Keys - names;
  }

  lemma SetShrinks(s: set<string>, t: set<string>)
    requires |s| - |s - t| <= 0
    ensures s - t == s
  {
    assert |s| == |s - t| + |s * t| by {
      assert s == (s - t) + (s * t);
    }
    assert s * t == {};
    forall x | x in s ensures x !in t {
      assert x !in s * t;
    }
  }

  lemma SetGrows(s: set<string>, t: set<string>)
    requires |s + t| - |s| <= 0
    ensures s + t == s
  {
    assert |s + t| == |s| + |t - s| by {
      assert s + t == s + (t - s);
    }
    assert t - s == {};
    forall x | x in t ensures x in s {
      assert x !in t - s;
    }
  }

  /** The log is complete: a command that logs nothing leaves the keyspace as it was. */
  lemma SilentChangesNothing(ks: Keyspace, arguments: Command, now: int)
    requires AllProper(ks)
    requires Exec(ks, arguments, now).log == []
    ensures Exec(ks, arguments, now).ks == ks
  {
    hide Exec, PlanOf, PerformUpdate;
    ExecShape(ks, arguments, now);
    match PlanOf(arguments, now)
    case Some(Delete(keys)) => DeletedCountZero(ks, keys);
    case Some(Update(key, m)) => SilentUpdate(ks, key, m, arguments);
    case _ =>
  }

  /** Commands never leave an empty list, hash or set behind. */
  lemma ExecKeepsProper(ks: Keyspace, arguments: Command, now: int)
    requires AllProper(ks)
    ensures AllProper(Exec(ks, arguments, now).ks)
  {
    hide Exec, PlanOf, Modify, Proper;
    ExecShape(ks, arguments, now);
    match PlanOf(arguments, now)
    case Some(Update(key, m)) =>
      var r := Modify(ValueAt(ks, key), m);
      if r.Accepted? && r.value.Some? {
        ModifyKeepsProper(ValueAt(ks, key), m);
      }
    case Some(StoreMany(pairs)) => StoreAllProper(ks, pairs);
    case Some(StoreString(_, value, _, _, _)) => StringIsProper(value);
    case _ =>
  }

  lemma StringIsProper(text: string)
    ensures Proper(Str(text))
  {
  }

  lemma {:induction false} StoreAllProper(ks: Keyspace, pairs: seq<(string, string)>)
    requires AllProper(ks)
    ensures AllProper(StoreAll(ks, pairs))
  {
    if pairs != [] {
      StoreAllProper(ks, pairs[..|pairs| - 1]);
    }
  }

  // ---------------------------------------------------------------
  // What the log holds
  // ---------------------------------------------------------------

  /** SET without conditions and without a deadline; the log holds no other form of it. */
  predicate Unconditional(op: Op) {
    op.StoreString? ==> !op.onlyIfMissing && !op.onlyIfPresent && op.expiry.None?
  }

  /** A command whose operation depends neither on when it runs nor on conditions. */
  ghost predicate Canonical(c: Command) {
    PlanOf(c, 0).Some? && Unconditional(PlanOf(c, 0).value) && forall t :: PlanOf(c, t) == PlanOf(c, 0)
  }

  ghost predicate AllCanonical(log: seq<Command>) {
    forall i :: 0 <= i < |log| ==> Canonical(log[i])
  }

  lemma NoneCanonical()
    ensures AllCanonical([])
  {
  }

  ghost function OpOf(c: Command): (op: Op)
    requires Canonical(c)
    ensures Unconditional(op)
  {
    PlanOf(c, 0).value
  }

  lemma CanonicalExec(ks: Keyspace, c: Command, now: int)
    requires Canonical(c)
    ensures OpOk(OpOf(c), now) && Exec(ks, c, now) == Perform(ks, OpOf(c), c, now)
  {
    hide Exec, PlanOf, Perform, OpOk;
    ExecShape(ks, c, now);
    assert PlanOf(c, now) == PlanOf(c, 0);
  }

  lemma EntryNames()
    ensures HandlerOf(Upper("DEL")) == Some(Del) && Upper("DEL") != "QUIT"
    ensures HandlerOf(Upper("SET")) == Some(SetString) && Upper("SET") != "QUIT"
    ensures HandlerOf(Upper("PEXPIREAT")) == Some(PExpireAt) && Upper("PEXPIREAT") != "QUIT"
    ensures HandlerOf(Upper("FLUSHALL")) == Some(FlushAll) && Upper("FLUSHALL") != "QUIT"
  {
    assert Upper("DEL") == "DEL";
    assert Upper("SET") == "SET";
    assert Upper("PEXPIREAT") == "PEXPIREAT";
    assert Upper("FLUSHALL") == "FLUSHALL";
  }

  /** The entries that the handlers compose themselves mean what they should at any time. */
  lemma DelEntryOp(key: string)
    ensures Canonical(DelEntry(key)) && OpOf(DelEntry(key)) == Delete([key])
  {
    hide HandlerOf, Upper;
    EntryNames();
    assert DelEntry(key)[1..] == [key];
  }

  lemma SetEntryOp(key: string, value: string)
    ensures Canonical(SetEntry(key, value))
    ensures OpOf(SetEntry(key, value)) == StoreString(key, value, false, false, None)
  {
    hide HandlerOf, Upper;
    EntryNames();
  }

  lemma ExpiryEntryOp(key: string, deadline: int)
    requires IsInt64(deadline)
    ensures Canonical(ExpiryEntry(key, deadline)) && OpOf(ExpiryEntry(key, deadline)) == ExpireKey(key, deadline)
  {
    hide HandlerOf, Upper, ParseInteger, IntToText;
    EntryNames();
    IntegerRoundTrip(deadline);
  }

  lemma FlushEntryOp()
    ensures Canonical(FlushEntry()) && OpOf(FlushEntry()) == Flush
  {
    hide HandlerOf, Upper;
    EntryNames();
  }

  /** Operations whose command is logged as it came. */
  predicate LoggedVerbatim(op: Op) {
    op.Delete? || op.PersistKey? || op.StoreMany? || op.Update?
  }

  /** A command that is logged as it came is canonical. */
  lemma VerbatimIsCanonical(arguments: Command, now: int)
    requires PlanOf(arguments, now).Some? && LoggedVerbatim(PlanOf(arguments, now).value)
    ensures Canonical(arguments) && OpOf(arguments) == PlanOf(arguments, now).value
  {
    hide Dispatch, ParseInteger, ReadSetOptions;
    var h := Dispatch(arguments).h;
    forall t ensures PlanOf(arguments, t) == PlanOf(arguments, now) {
      assert PlanWrite(h, arguments, t) == PlanWrite(h, arguments, now);
    }
  }

  lemma PerformLog(ks: Keyspace, op: Op, arguments: Command, now: int)
    requires OpOk(op, now)
    requires LoggedVerbatim(op) ==> Canonical(arguments)
    ensures AllCanonical(Perform(ks, op, arguments, now).log)
  {
    hide Modify, Canonical, DelEntry, SetEntry, ExpiryEntry, FlushEntry, Replace, StoreAll, ToSet;
    hide DeletedCount;
    match op
    case Flush => FlushEntryOp();
    case ExpireKey(key, deadline) =>
      DelEntryOp(key);
      ExpiryEntryOp(key, deadline);
    case StoreString(key, value, _, _, expiry) =>
      SetEntryOp(key, value);
      if expiry.Some? {
        ExpiryEntryOp(key, expiry.value);
      }
    case _ =>
  }

  /** Every log entry of a command means the same whenever it is replayed. */
  lemma LogIsCanonical(ks: Keyspace, arguments: Command, now: int)
    ensures AllCanonical(Exec(ks, arguments, now).log)
  {
    hide Exec, PlanOf, Perform, Canonical, AllCanonical;
    ExecShape(ks, arguments, now);
    match PlanOf(arguments, now)
    case Some(op) =>
      if LoggedVerbatim(op) {
        VerbatimIsCanonical(arguments, now);
      }
      PerformLog(ks, op, arguments, now);
    case None => assert AllCanonical([]) by { NoneCanonical(); }
  }

  // ---------------------------------------------------------------
  // Which replies are specified
  // ---------------------------------------------------------------

  lemma KeySpecifies(ks: Keyspace, h: Handler, key: string, first: string, second: string, now: int)
    requires ReadsKey(h)
    ensures !KeyReply(ks, h, key, first, second, now).Unspecified?
  {
    hide ParseInteger, Slice, ElementAt, HashListing, TtlMs, TtlSeconds;
  }

  lemma LookSpecifies(h: Handler, v: Option<Value>, name: string)
    requires OnlyLooks(h)
    ensures !LookReply(h, v, name).Unspecified?
  {
  }

  lemma ServerSpecifies(ks: Keyspace, h: Handler, arguments: Command)
    requires |arguments| >= 1 && !IsWrite(h) && !OnlyLooks(h) && !ReadsKey(h)
    requires !h.Config? && !h.DbSize? && !h.Info?
    ensures !ServerReply(ks, h, arguments).Unspecified?
  {
    hide Upper, PresentCount, GetAll, EntryCost;
  }

  /** The reply of a read command depends on the unexpired keyspace only, DBSIZE, INFO and CONFIG apart. */
  lemma ReadSpecifies(ks: Keyspace, h: Handler, arguments: Command, now: int)
    requires |arguments| >= 1 && !IsWrite(h) && !h.Config? && !h.DbSize? && !h.Info?
    ensures !Query(ks, h, arguments, now).Unspecified?
  {
    hide LookReply, KeyReply, ServerReply, IsWrite;
    var first, second := Argument(arguments, 1), Argument(arguments, 2);
    if OnlyLooks(h) {
      LookSpecifies(h, ValueAt(ks, first), second);
    } else if ReadsKey(h) {
      KeySpecifies(ks, h, first, second, Argument(arguments, 3), now);
    } else {
      ServerSpecifies(ks, h, arguments);
    }
  }

  /** So does the reply of every write command. */
  lemma WriteSpecifies(ks: Keyspace, plan: Plan, arguments: Command, now: int)
    ensures !RunPlan(ks, plan, arguments, now).reply.Unspecified?
  {
    hide Modify, DeletedCount, ToSet, StoreAll;
  }
}
