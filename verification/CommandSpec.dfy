/**
 * What every command does to the keyspace, what it answers and what it appends to the log,
 * as a function of the unexpired keyspace, the arguments and the time.
 */
module CommandSpec {
  import opened Text
  import opened Values
  import opened Keyspace
  import opened Resp
  import Glob
  import Ordering

  // ---------------------------------------------------------------
  // The command table
  // ---------------------------------------------------------------

  datatype Handler =
    | Ping | Echo | Select | CommandInfo | DbSize | FlushAll | Info | Config | Memory
    | Del | Exists | TypeOf | Keys | Expire | PExpire | ExpireAt | PExpireAt | Ttl | PTtl | Persist
    | SetString | Get | MSet | MGet | Incr | Decr | IncrBy | DecrBy | Append | StrLen
    | LPush | RPush | LPop | RPop | LRange | LLen | LIndex
    | HSet | HGet | HDel | HGetAll | HLen | HExists | HKeys | HVals
    | SAdd | SRem | SMembers | SIsMember | SCard

  function HandlerOf(name: string): Option<Handler> {
    match name
    case "PING" => Some(Ping)
    case "ECHO" => Some(Echo)
    case "SELECT" => Some(Select)
    case "COMMAND" => Some(CommandInfo)
    case "DBSIZE" => Some(DbSize)
    case "FLUSHALL" => Some(FlushAll)
    case "FLUSHDB" => Some(FlushAll)
    case "INFO" => Some(Info)
    case "CONFIG" => Some(Config)
    case "MEMORY" => Some(Memory)
    case "DEL" => Some(Del)
    case "UNLINK" => Some(Del)
    case "EXISTS" => Some(Exists)
    case "TYPE" => Some(TypeOf)
    case "KEYS" => Some(Keys)
    case "EXPIRE" => Some(Expire)
    case "PEXPIRE" => Some(PExpire)
    case "EXPIREAT" => Some(ExpireAt)
    case "PEXPIREAT" => Some(PExpireAt)
    case "TTL" => Some(Ttl)
    case "PTTL" => Some(PTtl)
    case "PERSIST" => Some(Persist)
    case "SET" => Some(SetString)
    case "GET" => Some(Get)
    case "MSET" => Some(MSet)
    case "MGET" => Some(MGet)
    case "INCR" => Some(Incr)
    case "DECR" => Some(Decr)
    case "INCRBY" => Some(IncrBy)
    case "DECRBY" => Some(DecrBy)
    case "APPEND" => Some(Append)
    case "STRLEN" => Some(StrLen)
    case "LPUSH" => Some(LPush)
    case "RPUSH" => Some(RPush)
    case "LPOP" => Some(LPop)
    case "RPOP" => Some(RPop)
    case "LRANGE" => Some(LRange)
    case "LLEN" => Some(LLen)
    case "LINDEX" => Some(LIndex)
    case "HSET" => Some(HSet)
    case "HGET" => Some(HGet)
    case "HDEL" => Some(HDel)
    case "HGETALL" => Some(HGetAll)
    case "HLEN" => Some(HLen)
    case "HEXISTS" => Some(HExists)
    case "HKEYS" => Some(HKeys)
    case "HVALS" => Some(HVals)
    case "SADD" => Some(SAdd)
    case "SREM" => Some(SRem)
    case "SMEMBERS" => Some(SMembers)
    case "SISMEMBER" => Some(SIsMember)
    case "SCARD" => Some(SCard)
    case _ => None
  }

  /** The exact number of arguments, name included, or the negated minimum. */
  function Arity(h: Handler): int {
    match h
    case Ping | CommandInfo | FlushAll | Info => -1
    case DbSize => 1
    case Config | Memory | Del | Exists | MGet => -2
    case Echo | Select | TypeOf | Keys | Ttl | PTtl | Persist | Get | Incr | Decr | StrLen
       | LPop | RPop | LLen | HGetAll | HLen | HKeys | HVals | SMembers | SCard => 2
    case Expire | PExpire | ExpireAt | PExpireAt | IncrBy | DecrBy | Append | LIndex
       | HGet | HExists | SIsMember => 3
    case SetString | MSet | LPush | RPush | HDel | SAdd | SRem => -3
    case LRange => 4
    case HSet => -4
  }

  predicate ArityOk(h: Handler, count: nat) {
    !(Arity(h) > 0 && count != Arity(h)) && !(Arity(h) < 0 && count < -Arity(h))
  }

  /** Commands that may change the store. */
  predicate IsWrite(h: Handler) {
    match h
    case FlushAll | Del | Expire | PExpire | ExpireAt | PExpireAt | Persist | LPop | RPop | HDel | SRem => true
    case _ => DenyOom(h)
  }

  /** Write commands that are refused while the memory limit is exceeded. */
  predicate DenyOom(h: Handler) {
    match h
    case SetString | MSet | Incr | Decr | IncrBy | DecrBy | Append | LPush | RPush | HSet | SAdd => true
    case _ => false
  }

  // ---------------------------------------------------------------
  // Replies
  // ---------------------------------------------------------------

  datatype Problem =
    | EmptyCommand
    | UnknownCommand(name: string)
    | WrongArguments
    | BadInteger
    | BadSyntax
    | BadExpire
    | DecrementOverflow
    | BadIndex
    | BadSubcommand
    | UnsupportedParameter(name: string)
    | BadPolicy
    | BadMemorySize
    | Misconfigured
    | OutOfMemory
    | Store(error: DbError)

  /** `Unspecified` marks a reply that depends on more than the unexpired keyspace. */
  datatype Reply =
    | Ok
    | Pong
    | Kind(value: Option<Value>)
    | Failure(problem: Problem)
    | Integer(n: int)
    | BulkReply(text: string)
    | Null
    | Strings(items: seq<string>)
    | Values(found: seq<Option<string>>)
    | Unspecified

  function NullableBulk(value: Option<string>): Reply {
    match value
    case None => Null
    case Some(text) => BulkReply(text)
  }

  // ---------------------------------------------------------------
  // Write commands: from arguments to an operation
  // ---------------------------------------------------------------

  datatype Op =
    | Flush
    | Delete(keys: seq<string>)
    | ExpireKey(key: string, deadline: int)
    | PersistKey(key: string)
    | StoreString(key: string, value: string, onlyIfMissing: bool, onlyIfPresent: bool, expiry: Option<int>)
    | StoreMany(pairs: seq<(string, string)>)
    | Update(key: string, m: Modifier)

  datatype Plan = Refuse(problem: Problem) | Do(op: Op)

  /** The arguments from `from` on, two by two. */
  function PairsOf(arguments: Command, from: nat): seq<(string, string)>
    requires from <= |arguments| && (|arguments| - from) % 2 == 0
  {
    seq((|arguments| - from) / 2, j requires 0 <= j < (|arguments| - from) / 2 =>
      (arguments[from + 2 * j], arguments[from + 2 * j + 1]))
  }

  /** EXPIRE and its relatives, and the deadline that SET ... EX/PX computes. */
  function DeadlineOf(amount: int, unitMs: int, absolute: bool, now: int): Option<int> {
    var scaled := amount * unitMs;
    if !IsInt64(scaled) then None
    else if absolute then Some(scaled)
    else if IsInt64(scaled + now) then Some(scaled + now)
    else None
  }

  function PlanExpire(arguments: Command, unitMs: int, absolute: bool, now: int): Plan
    requires |arguments| == 3
  {
    match ParseInteger(arguments[2])
    case None => Refuse(BadInteger)
    case Some(amount) =>
      match DeadlineOf(amount, unitMs, absolute, now)
      case None => Refuse(BadExpire)
      case Some(deadline) => Do(ExpireKey(arguments[1], deadline))
  }

  datatype SetOptions = SetOptions(onlyIfMissing: bool, onlyIfPresent: bool, expiry: Option<int>)

  datatype OptionsResult = BadOptions(problem: Problem) | GoodOptions(options: SetOptions)

  /** The options of SET from position `i` on. */
  function ReadSetOptions(arguments: Command, i: nat, sofar: SetOptions, now: int): OptionsResult
    requires i <= |arguments|
    decreases |arguments| - i
  {
    if i >= |arguments| then
      if sofar.onlyIfMissing && sofar.onlyIfPresent then BadOptions(BadSyntax) else GoodOptions(sofar)
    else
      var option := Upper(arguments[i]);
      if option == "NX" then ReadSetOptions(arguments, i + 1, sofar.(onlyIfMissing := true), now)
      else if option == "XX" then ReadSetOptions(arguments, i + 1, sofar.(onlyIfPresent := true), now)
      else if (option == "EX" || option == "PX") && i + 1 < |arguments| && sofar.expiry.None? then
        match SetExpiry(arguments[i + 1], if option == "EX" then 1000 else 1, now)
        case Refuse(problem) => BadOptions(problem)
        case Do(op) => ReadSetOptions(arguments, i + 2, sofar.(expiry := Some(op.deadline)), now)
      else BadOptions(BadSyntax)
  }

  function SetExpiry(text: string, unitMs: int, now: int): (p: Plan)
    ensures p.Do? ==> p.op.ExpireKey?
  {
    match ParseInteger(text)
    case None => Refuse(BadInteger)
    case Some(amount) =>
      match DeadlineOf(amount, unitMs, false, now)
      case None => Refuse(BadExpire)
      case Some(deadline) => if amount <= 0 then Refuse(BadExpire) else Do(ExpireKey("", deadline))
  }

  const NoOptions: SetOptions := SetOptions(false, false, None)

  function PlanSet(arguments: Command, now: int): Plan
    requires |arguments| >= 3
  {
    match ReadSetOptions(arguments, 3, NoOptions, now)
    case BadOptions(problem) => Refuse(problem)
    case GoodOptions(o) =>
      Do(StoreString(arguments[1], arguments[2], o.onlyIfMissing, o.onlyIfPresent, o.expiry))
  }

  function PlanIncrement(arguments: Command, negate: bool): Plan
    requires |arguments| == 3
  {
    match ParseInteger(arguments[2])
    case None => Refuse(BadInteger)
    case Some(delta) =>
      if !negate then Do(Update(arguments[1], Increment(delta)))
      else if delta == INT64_MIN then Refuse(DecrementOverflow)
      else Do(Update(arguments[1], Increment(-delta)))
  }

  function PlanWrite(h: Handler, arguments: Command, now: int): Plan
    requires IsWrite(h) && ArityOk(h, |arguments|)
  {
    if h.FlushAll? then Do(Flush)
    else if h.Del? then Do(Delete(arguments[1..]))
    else if h.Expire? then PlanExpire(arguments, 1000, false, now)
    else if h.PExpire? then PlanExpire(arguments, 1, false, now)
    else if h.ExpireAt? then PlanExpire(arguments, 1000, true, now)
    else if h.PExpireAt? then PlanExpire(arguments, 1, true, now)
    else if h.Persist? then Do(PersistKey(arguments[1]))
    else if h.SetString? then PlanSet(arguments, now)
    else if h.MSet? then
      if |arguments| % 2 == 0 then Refuse(WrongArguments) else Do(StoreMany(PairsOf(arguments, 1)))
    else if h.IncrBy? then PlanIncrement(arguments, false)
    else if h.DecrBy? then PlanIncrement(arguments, true)
    else if h.HSet? && |arguments| % 2 != 0 then Refuse(WrongArguments)
    else Do(Update(arguments[1], ModifierOf(h, arguments)))
  }

  /** Commands on one value that need nothing parsed. */
  predicate ChangesValue(h: Handler) {
    || h.Incr? || h.Decr? || h.Append? || h.LPush? || h.RPush? || h.LPop? || h.RPop?
    || h.HSet? || h.HDel? || h.SAdd? || h.SRem?
  }

  /** The change that such a command makes. */
  function ModifierOf(h: Handler, arguments: Command): Modifier
    requires ChangesValue(h) && ArityOk(h, |arguments|) && (h.HSet? ==> |arguments| % 2 == 0)
  {
    if h.Incr? then Increment(1)
    else if h.Decr? then Increment(-1)
    else if h.Append? then AppendText(arguments[2])
    else if h.LPush? then PushValues(arguments[2..], Left)
    else if h.RPush? then PushValues(arguments[2..], Right)
    else if h.LPop? then PopValue(Left)
    else if h.RPop? then PopValue(Right)
    else if h.HSet? then PutFields(PairsOf(arguments, 2))
    else if h.HDel? then RemoveFields(arguments[2..])
    else if h.SAdd? then AddMembers(arguments[2..])
    else RemoveMembers(arguments[2..])
  }

  // ---------------------------------------------------------------
  // Write commands: from an operation to its effect
  // ---------------------------------------------------------------

  datatype Effect = Effect(ks: Keyspace, reply: Reply, log: seq<Command>)

  function DelEntry(key: string): Command { ["DEL", key] }
  function SetEntry(key: string, value: string): Command { ["SET", key, value] }
  function ExpiryEntry(key: string, deadline: int): Command { ["PEXPIREAT", key, IntToText(deadline)] }
  function FlushEntry(): Command { ["FLUSHALL"] }

  function ReplyTo(answer: Answer): Reply {
    match answer
    case Number(n) => Integer(n)
    case Popped(value) => NullableBulk(value)
  }

  /** Whether the handler logs the command. */
  predicate Recorded(m: Modifier, answer: Answer) {
    match m
    case PopValue(_) => answer.Popped? && answer.value.Some?
    case RemoveFields(_) => answer.Number? && answer.n > 0
    case AddMembers(_) => answer.Number? && answer.n > 0
    case RemoveMembers(_) => answer.Number? && answer.n > 0
    case _ => true
  }

  function PerformUpdate(ks: Keyspace, key: string, m: Modifier, arguments: Command): Effect {
    match Modify(ValueAt(ks, key), m)
    case Rejected(error) => Effect(ks, Failure(Store(error)), [])
    case Accepted(value, answer) =>
      Effect(Replace(ks, key, value), ReplyTo(answer), if Recorded(m, answer) then [arguments] else [])
  }

  /** The effect of an operation on the unexpired keyspace `ks`. */
  function Perform(ks: Keyspace, op: Op, arguments: Command, now: int): Effect {
    match op
    case Flush => Effect(map[], Ok, [FlushEntry()])
    case Delete(keys) =>
      var n := DeletedCount(ks, keys);
      Effect(ks - ToSet(keys), Integer(n), if n > 0 then [arguments] else [])
    case ExpireKey(key, deadline) =>
      if key !in ks then Effect(ks, Integer(0), [])
      else if deadline <= now then Effect(ks - {key}, Integer(1), [DelEntry(key)])
      else Effect(ks[key := Item(ks[key].value, Some(deadline))], Integer(1), [ExpiryEntry(key, deadline)])
    case PersistKey(key) =>
      if key !in ks || ks[key].deadline.None? then Effect(ks, Integer(0), [])
      else Effect(ks[key := Item(ks[key].value, None)], Integer(1), [arguments])
    case StoreString(key, value, onlyIfMissing, onlyIfPresent, expiry) =>
      if (onlyIfMissing && key in ks) || (onlyIfPresent && key !in ks) then Effect(ks, Null, [])
      else
        Effect(ks[key := Item(Str(value), expiry)], Ok,
               [SetEntry(key, value)] + if expiry.Some? then [ExpiryEntry(key, expiry.value)] else [])
    case StoreMany(pairs) => Effect(StoreAll(ks, pairs), Ok, [arguments])
    case Update(key, m) => PerformUpdate(ks, key, m, arguments)
  }

  // ---------------------------------------------------------------
  // CONFIG
  // ---------------------------------------------------------------

  const UINT64_MAX: nat := 0xffff_ffff_ffff_ffff

  /** Decimal and binary multiples; 0 for an unknown unit. */
  function UnitSize(unit: string): nat {
    if unit == "" || unit == "b" then 1
    else if unit == "k" then 1000
    else if unit == "kb" then 1024
    else if unit == "m" then 1000 * 1000
    else if unit == "mb" then 1024 * 1024
    else if unit == "g" then 1000 * 1000 * 1000
    else if unit == "gb" then 1024 * 1024 * 1024
    else 0
  }

  /** Sizes such as "1048576", "100kb" or "1gb". */
  function ParseMemorySize(text: string): Option<nat> {
    var n := LeadingDigits(text);
    var unit := UnitSize(Lower(text[n..]));
    if n == 0 || DigitsValue(text[..n]) > UINT64_MAX || unit == 0 then None
    else if DigitsValue(text[..n]) * unit > UINT64_MAX then None
    else Some(DigitsValue(text[..n]) * unit)
  }

  datatype Setting = Limit(bytes: nat) | Policy(policy: EvictionPolicy) | Listed | Wrong(problem: Problem)

  /** What a CONFIG command asks for. */
  function SettingOf(arguments: Command): Setting
    requires |arguments| >= 2
  {
    var subcommand := Upper(arguments[1]);
    if subcommand == "GET" && |arguments| == 3 then Listed
    else if subcommand == "SET" && |arguments| == 4 then
      var parameter := Lower(arguments[2]);
      if parameter == "maxmemory" then
        match ParseMemorySize(arguments[3])
        case None => Wrong(BadMemorySize)
        case Some(bytes) => Limit(bytes)
      else if parameter == "maxmemory-policy" then
        if Lower(arguments[3]) == "noeviction" then Policy(NoEviction)
        else if Lower(arguments[3]) == "allkeys-lru" then Policy(AllKeysLru)
        else Wrong(BadPolicy)
      else Wrong(UnsupportedParameter(arguments[2]))
    else Wrong(BadSubcommand)
  }

  /** CONFIG GET lists parameters that are not part of the keyspace. */
  function ConfigReply(arguments: Command): Reply
    requires |arguments| >= 2
  {
    match SettingOf(arguments)
    case Limit(_) => Ok
    case Policy(_) => Ok
    case Listed => Unspecified
    case Wrong(problem) => Failure(problem)
  }

  // ---------------------------------------------------------------
  // Read commands
  // ---------------------------------------------------------------

  function GetReply(v: Option<Value>): Reply {
    match v
    case None => Null
    case Some(value) => if value.Str? then BulkReply(value.text) else Failure(Store(WrongType))
  }

  function TtlMs(ks: Keyspace, key: string, now: int): int {
    if key !in ks then -2
    else if ks[key].deadline.None? then -1
    else ks[key].deadline.value - now
  }

  /** Rounded to seconds; only non-negative remainders are rounded. */
  function TtlSeconds(remaining: int): int {
    if remaining < 0 then remaining else (remaining + 500) / 1000
  }

  function LengthReply(v: Option<Value>, expected: Value): Reply {
    match v
    case None => Integer(0)
    case Some(value) =>
      match (value, expected)
      case (Str(text), Str(_)) => Integer(|text|)
      case (List(elements), List(_)) => Integer(|elements|)
      case (Hash(fields), Hash(_)) => Integer(|fields|)
      case (Set(members), Set(_)) => Integer(|members|)
      case _ => Failure(Store(WrongType))
  }

  /** The fields of a hash in ascending order, with or without their values. */
  ghost function HashListing(fields: map<string, string>, names: bool, values: bool): seq<string> {
    Flatten(fields, Ordering.Listing(fields.Keys), names, values)
  }

  function Flatten(fields: map<string, string>, order: seq<string>, names: bool, values: bool): seq<string> {
    if order == [] then []
    else
      var name := order[|order| - 1];
      Flatten(fields, order[..|order| - 1], names, values)
        + (if names then [name] else [])
        + (if values && name in fields then [fields[name]] else [])
  }

  ghost function HashReply(v: Option<Value>, names: bool, values: bool): Reply {
    match v
    case None => Strings([])
    case Some(value) =>
      if value.Hash? then Strings(HashListing(value.fields, names, values)) else Failure(Store(WrongType))
  }

  function FieldReply(v: Option<Value>, name: string): Reply {
    match v
    case None => Null
    case Some(value) =>
      if !value.Hash? then Failure(Store(WrongType))
      else if name in value.fields then BulkReply(value.fields[name])
      else Null
  }

  function RangeReply(v: Option<Value>, start: string, stop: string): Reply {
    match (ParseInteger(start), ParseInteger(stop))
    case (Some(first), Some(last)) =>
      (match v
       case None => Strings([])
       case Some(value) =>
         if value.List? then Strings(Slice(value.elements, first, last)) else Failure(Store(WrongType)))
    case _ => Failure(BadInteger)
  }

  function IndexReply(v: Option<Value>, index: string): Reply {
    match ParseInteger(index)
    case None => Failure(BadInteger)
    case Some(at) =>
      match v
      case None => Null
      case Some(value) =>
        if value.List? then NullableBulk(ElementAt(value.elements, at)) else Failure(Store(WrongType))
  }

  /** HEXISTS and SISMEMBER. */
  function MemberReply(v: Option<Value>, name: string, hash: bool): Reply {
    match v
    case None => Integer(0)
    case Some(Hash(fields)) => if hash then Integer(if name in fields then 1 else 0) else Failure(Store(WrongType))
    case Some(Set(members)) => if hash then Failure(Store(WrongType)) else Integer(if name in members then 1 else 0)
    case Some(_) => Failure(Store(WrongType))
  }

  ghost function MembersReply(v: Option<Value>): Reply {
    match v
    case None => Strings([])
    case Some(value) =>
      if value.Set? then Strings(Ordering.Listing(value.members)) else Failure(Store(WrongType))
  }

  function GetAll(ks: Keyspace, keys: seq<string>): seq<Option<string>> {
    if keys == [] then []
    else
      var v := ValueAt(ks, keys[|keys| - 1]);
      GetAll(ks, keys[..|keys| - 1]) + [if v.Some? && v.value.Str? then Some(v.value.text) else None]
  }

  /** Commands that look at the value of one key without touching it. */
  predicate OnlyLooks(h: Handler) {
    h.TypeOf? || h.StrLen? || h.LLen? || h.HLen? || h.SCard? || h.HExists? || h.SIsMember?
  }

  function LookReply(h: Handler, v: Option<Value>, name: string): Reply
    requires OnlyLooks(h)
  {
    if h.TypeOf? then Kind(v)
    else if h.StrLen? then LengthReply(v, Str(""))
    else if h.LLen? then LengthReply(v, List([]))
    else if h.HLen? then LengthReply(v, Hash(map[]))
    else if h.SCard? then LengthReply(v, Set({}))
    else MemberReply(v, name, h.HExists?)
  }

  /** Commands that read one key. */
  predicate ReadsKey(h: Handler) {
    || h.Ttl? || h.PTtl? || h.Get? || h.HGet? || h.LRange? || h.LIndex?
    || h.HGetAll? || h.HKeys? || h.HVals? || h.SMembers?
  }

  ghost function KeyReply(ks: Keyspace, h: Handler, key: string, first: string, second: string, now: int): Reply
    requires ReadsKey(h)
  {
    if h.Ttl? then Integer(TtlSeconds(TtlMs(ks, key, now)))
    else if h.PTtl? then Integer(TtlMs(ks, key, now))
    else if h.Get? then GetReply(ValueAt(ks, key))
    else if h.HGet? then FieldReply(ValueAt(ks, key), first)
    else if h.LRange? then RangeReply(ValueAt(ks, key), first, second)
    else if h.LIndex? then IndexReply(ValueAt(ks, key), first)
    else if h.SMembers? then MembersReply(ValueAt(ks, key))
    else HashReply(ValueAt(ks, key), !h.HVals?, !h.HKeys?)
  }

  /** An argument, or nothing where a command has fewer. */
  function Argument(arguments: Command, i: nat): string {
    if i < |arguments| then arguments[i] else ""
  }

  ghost function ServerReply(ks: Keyspace, h: Handler, arguments: Command): Reply
    requires |arguments| >= 1
  {
    match h
    case Ping =>
      if |arguments| == 1 then Pong
      else if |arguments| == 2 then BulkReply(arguments[1])
      else Failure(WrongArguments)
    case Echo => BulkReply(Argument(arguments, 1))
    case Select => if Argument(arguments, 1) != "0" then Failure(BadIndex) else Ok
    case CommandInfo => Strings([])
    case Exists => Integer(PresentCount(ks, arguments[1..]))
    case Keys => Strings(Ordering.Listing(Glob.MatchingSet(ks.Keys, Argument(arguments, 1))))
    case MGet => Values(GetAll(ks, arguments[1..]))
    case Config => if |arguments| >= 2 then ConfigReply(arguments) else Unspecified
    case Memory =>
      if Upper(Argument(arguments, 1)) != "USAGE" || |arguments| != 3 then Failure(BadSubcommand)
      else if arguments[2] in ks then Integer(EntryCost(arguments[2], ks[arguments[2]].value))
      else Null
    case _ => Unspecified
  }

  ghost function Query(ks: Keyspace, h: Handler, arguments: Command, now: int): Reply
    requires |arguments| >= 1
  {
    if OnlyLooks(h) then LookReply(h, ValueAt(ks, Argument(arguments, 1)), Argument(arguments, 2))
    else if ReadsKey(h) then
      KeyReply(ks, h, Argument(arguments, 1), Argument(arguments, 2), Argument(arguments, 3), now)
    else ServerReply(ks, h, arguments)
  }

  // ---------------------------------------------------------------
  // One command
  // ---------------------------------------------------------------

  /** What a command line asks for. */
  datatype Request = Reject(problem: Problem) | Quit | Read(h: Handler) | Write(h: Handler)

  function Dispatch(arguments: Command): (r: Request)
    ensures r.Read? ==> !IsWrite(r.h) && ArityOk(r.h, |arguments|) && |arguments| >= 1
    ensures r.Write? ==> IsWrite(r.h) && ArityOk(r.h, |arguments|)
  {
    if arguments == [] then Reject(EmptyCommand)
    else
      var name := Upper(arguments[0]);
      if name == "QUIT" then Quit
      else
        match HandlerOf(name)
        case None => Reject(UnknownCommand(arguments[0]))
        case Some(h) =>
          if !ArityOk(h, |arguments|) then Reject(WrongArguments)
          else if IsWrite(h) then Write(h)
          else Read(h)
  }

  function RunPlan(ks: Keyspace, plan: Plan, arguments: Command, now: int): Effect {
    match plan
    case Refuse(problem) => Effect(ks, Failure(problem), [])
    case Do(op) => Perform(ks, op, arguments, now)
  }

  /** The whole effect of a command that is let through, on the unexpired keyspace. */
  ghost function Exec(ks: Keyspace, arguments: Command, now: int): Effect {
    match Dispatch(arguments)
    case Reject(problem) => Effect(ks, Failure(problem), [])
    case Quit => Effect(ks, Ok, [])
    case Read(h) => Effect(ks, Query(ks, h, arguments, now), [])
    case Write(h) => RunPlan(ks, PlanWrite(h, arguments, now), arguments, now)
  }

  /** The memory limit after a command. */
  function LimitAfter(arguments: Command, limit: nat): nat {
    if Dispatch(arguments) == Read(Config) && |arguments| >= 2 && SettingOf(arguments).Limit? then
      SettingOf(arguments).bytes
    else limit
  }

  /** The eviction policy after a command. */
  function PolicyAfter(arguments: Command, policy: EvictionPolicy): EvictionPolicy {
    if Dispatch(arguments) == Read(Config) && |arguments| >= 2 && SettingOf(arguments).Policy? then
      SettingOf(arguments).policy
    else policy
  }
}
