/** Commands by name: which names there are, in which case, with how many arguments. */
module Names {
  import opened Text
  import opened Keyspace
  import opened Resp
  import opened CommandSpec
  import opened Processor

  /** The command line calls the command of this name. */
  predicate Calls(c: Command, name: string) {
    c != [] && Upper(c[0]) == name
  }

  const SMALL: string := "abcdefghijklmnopqrstuvwxyz"
  const CAPITAL: string := "ABCDEFGHIJKLMNOPQRSTUVWXYZ"

  /** Names may be written in small letters, capitals or a mixture; other characters count as they are. */
  lemma LettersInAnyCase(s: string, i: nat)
    requires i < |s|
    ensures forall k :: 0 <= k < 26 && s[i] == SMALL[k] ==> Upper(s)[i] == CAPITAL[k]
    ensures forall k :: 0 <= k < 26 && s[i] == CAPITAL[k] ==> Lower(s)[i] == SMALL[k]
    ensures s[i] !in SMALL ==> Upper(s)[i] == s[i]
    ensures s[i] !in CAPITAL ==> Lower(s)[i] == s[i]
  {
    forall k | 0 <= k < 26 ensures SMALL[k] as int == 97 + k && CAPITAL[k] as int == 65 + k {
      Alphabet(k);
    }
    if 'a' <= s[i] <= 'z' {
      Alphabet(s[i] as int - 97);
      assert SMALL[s[i] as int - 97] == s[i];
    }
    if 'A' <= s[i] <= 'Z' {
      Alphabet(s[i] as int - 65);
      assert CAPITAL[s[i] as int - 65] == s[i];
    }
  }

  lemma Alphabet(k: nat)
    requires k < 26
    ensures SMALL[k] as int == 97 + k && CAPITAL[k] as int == 65 + k
  {
  }

  // ---------------------------------------------------------------
  // The table
  // ---------------------------------------------------------------

  lemma StringNames()
    ensures HandlerOf("SET") == Some(SetString) && HandlerOf("GET") == Some(Get)
    ensures HandlerOf("MSET") == Some(MSet) && HandlerOf("MGET") == Some(MGet)
    ensures HandlerOf("APPEND") == Some(Append) && HandlerOf("STRLEN") == Some(StrLen)
  {
  }

  lemma CounterNames()
    ensures HandlerOf("INCR") == Some(Incr) && HandlerOf("DECR") == Some(Decr)
    ensures HandlerOf("INCRBY") == Some(IncrBy) && HandlerOf("DECRBY") == Some(DecrBy)
  {
  }

  lemma ListNames()
    ensures HandlerOf("LPUSH") == Some(LPush) && HandlerOf("RPUSH") == Some(RPush)
    ensures HandlerOf("LPOP") == Some(LPop) && HandlerOf("RPOP") == Some(RPop)
    ensures HandlerOf("LRANGE") == Some(LRange) && HandlerOf("LLEN") == Some(LLen)
    ensures HandlerOf("LINDEX") == Some(LIndex)
  {
  }

  lemma HashNames()
    ensures HandlerOf("HSET") == Some(HSet) && HandlerOf("HGET") == Some(HGet) && HandlerOf("HDEL") == Some(HDel)
    ensures HandlerOf("HGETALL") == Some(HGetAll) && HandlerOf("HLEN") == Some(HLen)
  {
  }

  lemma FieldNames()
    ensures HandlerOf("HEXISTS") == Some(HExists)
    ensures HandlerOf("HKEYS") == Some(HKeys) && HandlerOf("HVALS") == Some(HVals)
  {
  }

  lemma SetNames()
    ensures HandlerOf("SADD") == Some(SAdd) && HandlerOf("SREM") == Some(SRem)
    ensures HandlerOf("SMEMBERS") == Some(SMembers) && HandlerOf("SISMEMBER") == Some(SIsMember)
    ensures HandlerOf("SCARD") == Some(SCard)
  {
  }

  lemma KeyNames()
    ensures HandlerOf("DEL") == Some(Del) && HandlerOf("UNLINK") == Some(Del)
    ensures HandlerOf("EXISTS") == Some(Exists) && HandlerOf("TYPE") == Some(TypeOf)
    ensures HandlerOf("KEYS") == Some(Keys) && HandlerOf("PERSIST") == Some(Persist)
  {
  }

  lemma ExpiryNames()
    ensures HandlerOf("EXPIRE") == Some(Expire) && HandlerOf("PEXPIRE") == Some(PExpire)
    ensures HandlerOf("EXPIREAT") == Some(ExpireAt) && HandlerOf("PEXPIREAT") == Some(PExpireAt)
    ensures HandlerOf("TTL") == Some(Ttl) && HandlerOf("PTTL") == Some(PTtl)
  {
  }

  lemma ServerNames()
    ensures HandlerOf("PING") == Some(Ping) && HandlerOf("ECHO") == Some(Echo)
    ensures HandlerOf("SELECT") == Some(Select) && HandlerOf("COMMAND") == Some(CommandInfo)
    ensures HandlerOf("FLUSHALL") == Some(FlushAll) && HandlerOf("FLUSHDB") == Some(FlushAll)
  {
  }

  lemma StateNames()
    ensures HandlerOf("DBSIZE") == Some(DbSize) && HandlerOf("INFO") == Some(Info)
    ensures HandlerOf("CONFIG") == Some(Config) && HandlerOf("MEMORY") == Some(Memory)
  {
  }

  // ---------------------------------------------------------------
  // From a name to its effect
  // ---------------------------------------------------------------

  lemma Known(c: Command, name: string, h: Handler)
    requires Calls(c, name) && HandlerOf(name) == Some(h) && name != "QUIT"
    ensures Dispatch(c) ==
      if !ArityOk(h, |c|) then Reject(WrongArguments) else if IsWrite(h) then Write(h) else Read(h)
  {
    hide HandlerOf, Upper, ArityOk, IsWrite;
  }

  lemma WriteEffect(ks: Keyspace, c: Command, name: string, h: Handler, now: int)
    requires Calls(c, name) && HandlerOf(name) == Some(h) && name != "QUIT" && IsWrite(h) && ArityOk(h, |c|)
    ensures Exec(ks, c, now) == RunPlan(ks, PlanWrite(h, c, now), c, now)
  {
    hide HandlerOf, Upper, Dispatch, RunPlan, PlanWrite, Exec;
    Known(c, name, h);
    ExecCases(ks, c, now);
  }

  lemma ReadEffect(ks: Keyspace, c: Command, name: string, h: Handler, now: int)
    requires Calls(c, name) && HandlerOf(name) == Some(h) && name != "QUIT" && !IsWrite(h) && ArityOk(h, |c|)
    ensures |c| >= 1 && Exec(ks, c, now) == Effect(ks, Query(ks, h, c, now), [])
  {
    hide HandlerOf, Upper, Dispatch, Query, Exec;
    Known(c, name, h);
    ExecCases(ks, c, now);
  }

  lemma UpdateArity(h: Handler, count: nat)
    requires ChangesValue(h) && ArityOk(h, count)
    ensures count >= 2 && IsWrite(h)
  {
  }

  lemma UpdatePlan(h: Handler, c: Command, now: int)
    requires ChangesValue(h) && ArityOk(h, |c|) && (h.HSet? ==> |c| % 2 == 0)
    ensures |c| >= 2 && IsWrite(h) && PlanWrite(h, c, now) == Do(Update(c[1], ModifierOf(h, c)))
  {
    hide ModifierOf, PlanSet, PlanExpire, PlanIncrement, PairsOf, IsWrite, ArityOk, Arity, DenyOom;
    UpdateArity(h, |c|);
  }

  lemma UpdateRuns(ks: Keyspace, c: Command, key: string, m: Modifier, now: int)
    ensures RunPlan(ks, Do(Update(key, m)), c, now) == PerformUpdate(ks, key, m, c)
  {
    hide PerformUpdate;
  }

  /** The commands that change one value, given what they change it by. */
  lemma UpdateEffect(ks: Keyspace, c: Command, name: string, h: Handler, now: int)
    requires Calls(c, name) && HandlerOf(name) == Some(h) && name != "QUIT"
    requires ChangesValue(h) && ArityOk(h, |c|) && (h.HSet? ==> |c| % 2 == 0)
    ensures |c| >= 2 && Exec(ks, c, now) == PerformUpdate(ks, c[1], ModifierOf(h, c), c)
  {
    hide *;
    UpdatePlan(h, c, now);
    WriteEffect(ks, c, name, h, now);
    UpdateRuns(ks, c, c[1], ModifierOf(h, c), now);
  }

  /** A command with the wrong number of arguments does nothing but say so. */
  ghost predicate WrongCount(ks: Keyspace, c: Command, now: int) {
    Exec(ks, c, now) == Effect(ks, Failure(WrongArguments), [])
  }

  lemma Miscounted(ks: Keyspace, c: Command, name: string, h: Handler, now: int)
    ensures Calls(c, name) && HandlerOf(name) == Some(h) && name != "QUIT" && !ArityOk(h, |c|) ==>
      WrongCount(ks, c, now)
  {
    hide HandlerOf, Upper, Dispatch, Exec, ArityOk;
    if Calls(c, name) && HandlerOf(name) == Some(h) && name != "QUIT" && !ArityOk(h, |c|) {
      Known(c, name, h);
      ExecCases(ks, c, now);
    }
  }

  lemma StringCounts(ks: Keyspace, c: Command, now: int)
    ensures (Calls(c, "GET") || Calls(c, "STRLEN")) && |c| != 2 ==> WrongCount(ks, c, now)
    ensures Calls(c, "APPEND") && |c| != 3 ==> WrongCount(ks, c, now)
    ensures (Calls(c, "SET") || Calls(c, "MSET")) && |c| < 3 ==> WrongCount(ks, c, now)
    ensures Calls(c, "MGET") && |c| < 2 ==> WrongCount(ks, c, now)
  {
    hide HandlerOf, Upper, WrongCount;
    StringNames();
    Miscounted(ks, c, "GET", Get, now);
    Miscounted(ks, c, "STRLEN", StrLen, now);
    Miscounted(ks, c, "APPEND", Append, now);
    Miscounted(ks, c, "SET", SetString, now);
    Miscounted(ks, c, "MSET", MSet, now);
    Miscounted(ks, c, "MGET", MGet, now);
  }

  lemma CounterCounts(ks: Keyspace, c: Command, now: int)
    ensures (Calls(c, "INCR") || Calls(c, "DECR")) && |c| != 2 ==> WrongCount(ks, c, now)
    ensures (Calls(c, "INCRBY") || Calls(c, "DECRBY")) && |c| != 3 ==> WrongCount(ks, c, now)
  {
    hide HandlerOf, Upper, WrongCount;
    CounterNames();
    Miscounted(ks, c, "INCR", Incr, now);
    Miscounted(ks, c, "DECR", Decr, now);
    Miscounted(ks, c, "INCRBY", IncrBy, now);
    Miscounted(ks, c, "DECRBY", DecrBy, now);
  }

  lemma ListCounts(ks: Keyspace, c: Command, now: int)
    ensures (Calls(c, "LPUSH") || Calls(c, "RPUSH")) && |c| < 3 ==> WrongCount(ks, c, now)
    ensures (Calls(c, "LPOP") || Calls(c, "RPOP")) && |c| != 2 ==> WrongCount(ks, c, now)
  {
    hide HandlerOf, Upper, WrongCount;
    ListNames();
    Miscounted(ks, c, "LPUSH", LPush, now);
    Miscounted(ks, c, "RPUSH", RPush, now);
    Miscounted(ks, c, "LPOP", LPop, now);
    Miscounted(ks, c, "RPOP", RPop, now);
  }

  lemma RangeCounts(ks: Keyspace, c: Command, now: int)
    ensures Calls(c, "LLEN") && |c| != 2 ==> WrongCount(ks, c, now)
    ensures Calls(c, "LRANGE") && |c| != 4 ==> WrongCount(ks, c, now)
    ensures Calls(c, "LINDEX") && |c| != 3 ==> WrongCount(ks, c, now)
  {
    hide HandlerOf, Upper, WrongCount;
    ListNames();
    Miscounted(ks, c, "LLEN", LLen, now);
    Miscounted(ks, c, "LRANGE", LRange, now);
    Miscounted(ks, c, "LINDEX", LIndex, now);
  }

  lemma HashCounts(ks: Keyspace, c: Command, now: int)
    ensures Calls(c, "HSET") && |c| < 4 ==> WrongCount(ks, c, now)
    ensures Calls(c, "HDEL") && |c| < 3 ==> WrongCount(ks, c, now)
    ensures Calls(c, "HGET") && |c| != 3 ==> WrongCount(ks, c, now)
    ensures (Calls(c, "HGETALL") || Calls(c, "HLEN")) && |c| != 2 ==> WrongCount(ks, c, now)
  {
    hide HandlerOf, Upper, WrongCount;
    HashNames();
    Miscounted(ks, c, "HSET", HSet, now);
    Miscounted(ks, c, "HDEL", HDel, now);
    Miscounted(ks, c, "HGET", HGet, now);
    Miscounted(ks, c, "HGETALL", HGetAll, now);
    Miscounted(ks, c, "HLEN", HLen, now);
  }

  lemma FieldCounts(ks: Keyspace, c: Command, now: int)
    ensures Calls(c, "HEXISTS") && |c| != 3 ==> WrongCount(ks, c, now)
    ensures (Calls(c, "HKEYS") || Calls(c, "HVALS")) && |c| != 2 ==> WrongCount(ks, c, now)
  {
    hide HandlerOf, Upper, WrongCount;
    FieldNames();
    Miscounted(ks, c, "HEXISTS", HExists, now);
    Miscounted(ks, c, "HKEYS", HKeys, now);
    Miscounted(ks, c, "HVALS", HVals, now);
  }

  lemma SetCounts(ks: Keyspace, c: Command, now: int)
    ensures (Calls(c, "SADD") || Calls(c, "SREM")) && |c| < 3 ==> WrongCount(ks, c, now)
    ensures (Calls(c, "SMEMBERS") || Calls(c, "SCARD")) && |c| != 2 ==> WrongCount(ks, c, now)
    ensures Calls(c, "SISMEMBER") && |c| != 3 ==> WrongCount(ks, c, now)
  {
    hide HandlerOf, Upper, WrongCount;
    SetNames();
    Miscounted(ks, c, "SADD", SAdd, now);
    Miscounted(ks, c, "SREM", SRem, now);
    Miscounted(ks, c, "SMEMBERS", SMembers, now);
    Miscounted(ks, c, "SCARD", SCard, now);
    Miscounted(ks, c, "SISMEMBER", SIsMember, now);
  }

  lemma KeyCounts(ks: Keyspace, c: Command, now: int)
    ensures (Calls(c, "DEL") || Calls(c, "UNLINK") || Calls(c, "EXISTS")) && |c| < 2 ==> WrongCount(ks, c, now)
    ensures (Calls(c, "TYPE") || Calls(c, "KEYS") || Calls(c, "PERSIST")) && |c| != 2 ==> WrongCount(ks, c, now)
  {
    hide HandlerOf, Upper, WrongCount;
    KeyNames();
    Miscounted(ks, c, "DEL", Del, now);
    Miscounted(ks, c, "UNLINK", Del, now);
    Miscounted(ks, c, "EXISTS", Exists, now);
    Miscounted(ks, c, "TYPE", TypeOf, now);
    Miscounted(ks, c, "KEYS", Keys, now);
    Miscounted(ks, c, "PERSIST", Persist, now);
  }

  lemma ExpiryCounts(ks: Keyspace, c: Command, now: int)
    ensures (Calls(c, "EXPIRE") || Calls(c, "PEXPIRE")) && |c| != 3 ==> WrongCount(ks, c, now)
    ensures (Calls(c, "EXPIREAT") || Calls(c, "PEXPIREAT")) && |c| != 3 ==> WrongCount(ks, c, now)
    ensures (Calls(c, "TTL") || Calls(c, "PTTL")) && |c| != 2 ==> WrongCount(ks, c, now)
  {
    hide HandlerOf, Upper, WrongCount;
    ExpiryNames();
    Miscounted(ks, c, "EXPIRE", Expire, now);
    Miscounted(ks, c, "PEXPIRE", PExpire, now);
    Miscounted(ks, c, "EXPIREAT", ExpireAt, now);
    Miscounted(ks, c, "PEXPIREAT", PExpireAt, now);
    Miscounted(ks, c, "TTL", Ttl, now);
    Miscounted(ks, c, "PTTL", PTtl, now);
  }

  lemma ServerCounts(ks: Keyspace, c: Command, now: int)
    ensures (Calls(c, "ECHO") || Calls(c, "SELECT")) && |c| != 2 ==> WrongCount(ks, c, now)
    ensures Calls(c, "DBSIZE") && |c| != 1 ==> WrongCount(ks, c, now)
    ensures (Calls(c, "CONFIG") || Calls(c, "MEMORY")) && |c| < 2 ==> WrongCount(ks, c, now)
  {
    hide HandlerOf, Upper, WrongCount;
    ServerNames();
    StateNames();
    Miscounted(ks, c, "ECHO", Echo, now);
    Miscounted(ks, c, "SELECT", Select, now);
    Miscounted(ks, c, "DBSIZE", DbSize, now);
    Miscounted(ks, c, "CONFIG", Config, now);
    Miscounted(ks, c, "MEMORY", Memory, now);
  }

  // ---------------------------------------------------------------
  // No other names
  // ---------------------------------------------------------------

  predicate OnValues(name: string) {
    || name in {"SET", "GET", "MSET", "MGET", "APPEND", "STRLEN", "INCR", "DECR", "INCRBY", "DECRBY"}
    || name in {"LPUSH", "RPUSH", "LPOP", "RPOP", "LRANGE", "LLEN", "LINDEX"}
    || name in {"HSET", "HGET", "HDEL", "HGETALL", "HLEN", "HEXISTS", "HKEYS", "HVALS"}
    || name in {"SADD", "SREM", "SMEMBERS", "SISMEMBER", "SCARD"}
  }

  predicate OnKeys(name: string) {
    || name in {"DEL", "UNLINK", "EXISTS", "TYPE", "KEYS", "PERSIST", "FLUSHALL", "FLUSHDB"}
    || name in {"EXPIRE", "PEXPIRE", "EXPIREAT", "PEXPIREAT", "TTL", "PTTL"}
    || name in {"PING", "ECHO", "SELECT", "COMMAND", "DBSIZE", "INFO", "CONFIG", "MEMORY"}
  }

  lemma NoOtherNames(name: string)
    ensures HandlerOf(name).Some? ==> OnValues(name) || OnKeys(name)
  {
  }

  /** Any other name is reported as it was given, and nothing is done. */
  lemma UnknownNames(ks: Keyspace, c: Command, now: int)
    requires c != [] && Upper(c[0]) != "QUIT" && !OnValues(Upper(c[0])) && !OnKeys(Upper(c[0]))
    ensures Exec(ks, c, now) == Effect(ks, Failure(UnknownCommand(c[0])), [])
  {
    hide HandlerOf, Upper, OnValues, OnKeys;
    NoOtherNames(Upper(c[0]));
  }
}
