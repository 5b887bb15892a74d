/** What CONFIG does and answers, and when commands are turned away. */
module ConfigLaws {
  import opened Text
  import opened Values
  import opened Keyspace
  import opened Resp
  import opened CommandSpec
  import opened Processor
  import opened Names
  import opened NumberLaws
  import Glob

  /** A unit of memory, in any case, and its size. */
  predicate Measures(unit: string, size: nat) {
    || (Lower(unit) == "" && size == 1) || (Lower(unit) == "b" && size == 1)
    || (Lower(unit) == "k" && size == 1_000) || (Lower(unit) == "kb" && size == 1_024)
    || (Lower(unit) == "m" && size == 1_000_000) || (Lower(unit) == "mb" && size == 1_048_576)
    || (Lower(unit) == "g" && size == 1_000_000_000) || (Lower(unit) == "gb" && size == 1_073_741_824)
  }

  lemma UnitIsNoDigit(unit: string, size: nat)
    requires Measures(unit, size)
    ensures (unit != "" ==> !IsDigit(unit[0])) && UnitSize(Lower(unit)) == size
  {
    if unit != "" {
      assert Lower(unit)[0] == LowerChar(unit[0]);
    }
  }

  /** A number and a unit, as a memory size. */
  lemma SizeRead(n: nat, unit: string, size: nat)
    requires Measures(unit, size) && n <= UINT64_MAX
    ensures ParseMemorySize(NatToText(n) + unit) == if n * size <= UINT64_MAX then Some(n * size) else None
  {
    hide NatToText, DigitsValue, LeadingDigits, Lower, UnitSize, Measures;
    var text := NatToText(n) + unit;
    UnitIsNoDigit(unit, size);
    DigitsEnd(NatToText(n), unit);
    DigitsOfText(n);
    assert text[..|NatToText(n)|] == NatToText(n) && text[|NatToText(n)|..] == unit;
    assert size > 0 by { SizeIsPositive(unit, size); }
  }

  lemma SizeIsPositive(unit: string, size: nat)
    requires Measures(unit, size)
    ensures size > 0
  {
  }

  lemma ConfigEffect(ks: Keyspace, c: Command, now: int)
    requires Calls(c, "CONFIG") && |c| >= 2
    ensures Exec(ks, c, now) == Effect(ks, ConfigReply(c), []) && Dispatch(c) == Read(Config)
  {
    hide HandlerOf, Upper, Exec, ConfigReply, SettingOf;
    StateNames();
    ReadEffect(ks, c, "CONFIG", Config, now);
    Known(c, "CONFIG", Config);
  }

  predicate Sets(c: Command, parameter: string) {
    Calls(c, "CONFIG") && |c| == 4 && Upper(c[1]) == "SET" && Lower(c[2]) == parameter
  }

  /** CONFIG SET maxmemory sets the limit, in the unit given, if it fits. */
  lemma SetLimit(ks: Keyspace, c: Command, n: nat, unit: string, size: nat, limit: nat, now: int)
    requires Sets(c, "maxmemory") && Measures(unit, size) && n <= UINT64_MAX && c[3] == NatToText(n) + unit
    ensures n * size <= UINT64_MAX ==> Exec(ks, c, now) == Effect(ks, Ok, []) && LimitAfter(c, limit) == n * size
    ensures n * size > UINT64_MAX ==>
      Exec(ks, c, now) == Effect(ks, Failure(BadMemorySize), []) && LimitAfter(c, limit) == limit
  {
    hide HandlerOf, Upper, Lower, Exec, ParseMemorySize, NatToText, Measures, Dispatch;
    ConfigEffect(ks, c, now);
    SizeRead(n, unit, size);
  }

  /** Without digits in front there is no size. */
  lemma SetNoLimit(ks: Keyspace, c: Command, limit: nat, now: int)
    requires Sets(c, "maxmemory") && (c[3] == "" || !IsDigit(c[3][0]))
    ensures Exec(ks, c, now) == Effect(ks, Failure(BadMemorySize), []) && LimitAfter(c, limit) == limit
  {
    hide HandlerOf, Upper, Lower, Exec, Dispatch;
    ConfigEffect(ks, c, now);
  }

  lemma SetPolicy(ks: Keyspace, c: Command, policy: EvictionPolicy, now: int)
    requires Sets(c, "maxmemory-policy")
    ensures Lower(c[3]) == "noeviction" ==>
      Exec(ks, c, now) == Effect(ks, Ok, []) && PolicyAfter(c, policy) == NoEviction
    ensures Lower(c[3]) == "allkeys-lru" ==>
      Exec(ks, c, now) == Effect(ks, Ok, []) && PolicyAfter(c, policy) == AllKeysLru
    ensures Lower(c[3]) !in {"noeviction", "allkeys-lru"} ==>
      Exec(ks, c, now) == Effect(ks, Failure(BadPolicy), []) && PolicyAfter(c, policy) == policy
  {
    hide HandlerOf, Upper, Lower, Exec, Dispatch, ParseMemorySize;
    ConfigEffect(ks, c, now);
  }

  /** Other parameters are repeated, other forms refused; neither changes a setting. */
  lemma ConfigRefuses(ks: Keyspace, c: Command, limit: nat, policy: EvictionPolicy, now: int)
    requires Calls(c, "CONFIG") && |c| >= 2
    ensures |c| == 4 && Upper(c[1]) == "SET" && Lower(c[2]) !in {"maxmemory", "maxmemory-policy"} ==>
      Exec(ks, c, now) == Effect(ks, Failure(UnsupportedParameter(c[2])), [])
    ensures !(|c| == 4 && Upper(c[1]) == "SET") && !(|c| == 3 && Upper(c[1]) == "GET") ==>
      Exec(ks, c, now) == Effect(ks, Failure(BadSubcommand), [])
    ensures !Sets(c, "maxmemory") ==> LimitAfter(c, limit) == limit
    ensures !Sets(c, "maxmemory-policy") ==> PolicyAfter(c, policy) == policy
  {
    hide HandlerOf, Upper, Lower, Exec, Dispatch, ParseMemorySize;
    ConfigEffect(ks, c, now);
  }

  /** Other commands leave the settings alone. */
  lemma OthersKeepSettings(c: Command, limit: nat, policy: EvictionPolicy)
    requires !Calls(c, "CONFIG")
    ensures LimitAfter(c, limit) == limit && PolicyAfter(c, policy) == policy
  {
    hide Upper, SettingOf;
  }

  /** CONFIG GET answers names and values in turn, of those parameters whose names match. */
  lemma GetListsParameters(limit: nat, policy: EvictionPolicy, logging: bool, port: nat)
    ensures Parameters(limit, policy, logging, port)[0] == ("maxmemory", NatToText(limit))
    ensures Parameters(limit, policy, logging, port)[1] ==
      ("maxmemory-policy", if policy.NoEviction? then "noeviction" else "allkeys-lru")
    ensures Parameters(limit, policy, logging, port)[2] == ("appendonly", if logging then "yes" else "no")
    ensures Parameters(limit, policy, logging, port)[3..] == [("port", NatToText(port)), ("save", "")]
  {
  }

  /** CONFIG GET goes through the parameters in order: the name, then the value, of each that matches. */
  lemma {:induction false} SelectedInOrder(first: seq<(string, string)>, rest: seq<(string, string)>, pattern: string)
    ensures Selected(first + rest, pattern) == Selected(first, pattern) + Selected(rest, pattern)
  {
    hide Glob.Matches;
    if rest == [] {
      assert first + rest == first;
    } else {
      var all := first + rest;
      assert all[..|all| - 1] == first + rest[..|rest| - 1];
      SelectedInOrder(first, rest[..|rest| - 1], pattern);
    }
  }

  lemma SelectedOne(name: string, value: string, pattern: string)
    ensures Selected([(name, value)], pattern) == if Glob.Matches(pattern, 0, name, 0) then [name, value] else []
  {
    hide Glob.Matches;
  }

  // ---------------------------------------------------------------
  // Commands turned away
  // ---------------------------------------------------------------

  /** While the last log write has failed, every write command is turned away with that reason. */
  lemma UnhealthyLogRefuses(p: CommandProcessor, c: Command)
    requires p.aof != null && p.aof.writeFailed
    ensures p.Refuses(c) <==> Dispatch(c).Write?
    ensures p.RefusalReason() == Misconfigured && (Dispatch(c).Write? ==> p.Evicts(c) == [])
  {
    hide Dispatch;
  }

  /** With a healthy log, only growing commands are, only over the limit, and never under allkeys-lru. */
  lemma PressureRefuses(p: CommandProcessor, c: Command)
    requires p.aof == null || !p.aof.writeFailed
    ensures p.Refuses(c) <==>
      MayGrow(c) && p.db.policy == NoEviction && p.db.memoryLimit > 0 && p.db.memoryUsed > p.db.memoryLimit
    ensures p.RefusalReason() == OutOfMemory
  {
    hide Dispatch, DenyOom;
  }

  predicate Growing(name: string) {
    || name in {"SET", "MSET", "APPEND", "INCR", "DECR", "INCRBY", "DECRBY"}
    || name in {"LPUSH", "RPUSH", "HSET", "SADD"}
  }

  predicate Shrinking(name: string) {
    || name in {"DEL", "UNLINK", "FLUSHALL", "FLUSHDB", "PERSIST", "LPOP", "RPOP", "HDEL", "SREM"}
    || name in {"EXPIRE", "PEXPIRE", "EXPIREAT", "PEXPIREAT"}
  }

  lemma GrowingHandlers(name: string)
    ensures HandlerOf(name).Some? && DenyOom(HandlerOf(name).value) ==> Growing(name)
    ensures Growing(name) ==> name != "QUIT"
  {
  }

  lemma GrowingTable(name: string)
    requires Growing(name)
    ensures HandlerOf(name).Some? && DenyOom(HandlerOf(name).value)
  {
    hide HandlerOf;
    StringNames();
    CounterNames();
    ListNames();
    HashNames();
    SetNames();
  }

  /** The commands that can grow the store, by name. */
  lemma GrowingNames(c: Command)
    requires c != []
    ensures MayGrow(c) <==> Growing(Upper(c[0])) && !Dispatch(c).Reject?
  {
    hide HandlerOf, Upper, Growing, DenyOom;
    GrowingHandlers(Upper(c[0]));
    if Growing(Upper(c[0])) {
      GrowingTable(Upper(c[0]));
    }
  }

  lemma ShrinkingHandlers(name: string)
    ensures HandlerOf(name).Some? && IsWrite(HandlerOf(name).value) && !DenyOom(HandlerOf(name).value) ==>
      Shrinking(name)
    ensures Shrinking(name) ==> name != "QUIT"
  {
  }

  lemma ShrinkingTable(name: string)
    requires Shrinking(name)
    ensures HandlerOf(name).Some? && IsWrite(HandlerOf(name).value) && !DenyOom(HandlerOf(name).value)
  {
    hide HandlerOf;
    if name in {"FLUSHALL", "FLUSHDB"} {
      ServerNames();
    } else if name in {"LPOP", "RPOP"} {
      ListNames();
    } else if name in {"HDEL"} {
      HashNames();
    } else if name in {"SREM"} {
      SetNames();
    } else if name in {"DEL", "UNLINK", "PERSIST"} {
      KeyNames();
    } else {
      ExpiryNames();
    }
  }

  /** The commands that write but cannot grow the store, by name. */
  lemma ShrinkingNames(c: Command)
    requires c != []
    ensures Dispatch(c).Write? && !MayGrow(c) <==> Shrinking(Upper(c[0])) && !Dispatch(c).Reject?
  {
    hide HandlerOf, Upper, Shrinking, DenyOom;
    ShrinkingHandlers(Upper(c[0]));
    if Shrinking(Upper(c[0])) {
      ShrinkingTable(Upper(c[0]));
    }
  }
}
