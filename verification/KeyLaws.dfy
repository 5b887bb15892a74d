/** What the commands on keys, deadlines and the server do and answer. */
module KeyLaws {
  import opened Text
  import opened Values
  import opened Keyspace
  import opened Resp
  import opened CommandSpec
  import opened Commands
  import opened Names
  import opened StringLaws
  import opened HashLaws
  import Glob
  import Ordering

  // ---------------------------------------------------------------
  // DEL, EXISTS, TYPE, KEYS, FLUSHALL
  // ---------------------------------------------------------------

  /** The keys from position 1 on, as a set. */
  function AllNamed(c: Command): set<string> {
    set i | 1 <= i < |c| :: c[i]
  }

  lemma AllNamedIsToSet(c: Command)
    requires |c| >= 1
    ensures ToSet(c[1..]) == AllNamed(c)
  {
    forall x ensures x in ToSet(c[1..]) <==> x in AllNamed(c) {
      if x in AllNamed(c) {
        var i :| 1 <= i < |c| && c[i] == x;
        assert c[1..][i - 1] == x;
      }
      if x in c[1..] {
        var j :| 0 <= j < |c| - 1 && c[1..][j] == x;
        assert c[j + 1] == x;
      }
    }
  }

  /** DEL and UNLINK remove the keys named, answer how many there were, and are logged if any was. */
  lemma DelRemoves(ks: Keyspace, c: Command, now: int)
    requires (Calls(c, "DEL") || Calls(c, "UNLINK")) && |c| >= 2
    ensures var gone := ks.Keys * AllNamed(c);
      Exec(ks, c, now) == Effect(ks - AllNamed(c), Integer(|gone|), if gone == {} then [] else [c])
  {
    hide HandlerOf, Upper, Exec, ToSet, AllNamed;
    KeyNames();
    AllNamedIsToSet(c);
    if Calls(c, "DEL") {
      WriteEffect(ks, c, "DEL", Del, now);
    } else {
      WriteEffect(ks, c, "UNLINK", Del, now);
    }
    assert |ks.Keys * AllNamed(c)| > 0 <==> ks.Keys * AllNamed(c) != {};
  }

  /** The positions of a command, from 1 on, whose key is there. */
  ghost function Hits(ks: Keyspace, c: Command, n: nat): set<int>
    requires n <= |c|
  {
    set i | 1 <= i < n && c[i] in ks
  }

  lemma {:induction false} PresentHits(ks: Keyspace, c: Command, n: nat)
    requires 1 <= n <= |c|
    ensures PresentCount(ks, c[1..n]) == |Hits(ks, c, n)|
  {
    if n == 1 {
      assert Hits(ks, c, 1) == {};
    } else {
      PresentHits(ks, c, n - 1);
      assert c[1..n][..n - 2] == c[1..n - 1];
      assert Hits(ks, c, n) == Hits(ks, c, n - 1) + if c[n - 1] in ks then {n - 1} else {};
    }
  }

  /** EXISTS counts a key as often as it is named. */
  lemma ExistsCounts(ks: Keyspace, c: Command, now: int)
    requires Calls(c, "EXISTS") && |c| >= 2
    ensures Exec(ks, c, now) == Effect(ks, Integer(|Hits(ks, c, |c|)|), [])
  {
    hide HandlerOf, Upper, Exec, PresentCount, Hits;
    KeyNames();
    ReadEffect(ks, c, "EXISTS", Exists, now);
    PresentHits(ks, c, |c|);
    assert c[1..|c|] == c[1..];
  }

  lemma TypeAnswers(ks: Keyspace, c: Command, now: int)
    requires Calls(c, "TYPE") && |c| == 2
    ensures Exec(ks, c, now) == Effect(ks, Kind(if c[1] in ks then Some(ks[c[1]].value) else None), [])
  {
    hide HandlerOf, Upper, Exec;
    KeyNames();
    ReadEffect(ks, c, "TYPE", TypeOf, now);
  }

  /** KEYS lists the keys that the whole pattern matches, in ascending order. */
  lemma KeysAnswers(ks: Keyspace, c: Command, now: int) returns (r: seq<string>)
    requires Calls(c, "KEYS") && |c| == 2
    ensures Exec(ks, c, now) == Effect(ks, Strings(r), [])
    ensures Ordering.Ascending(r)
    ensures forall k :: k in r <==> k in ks && Glob.Matches(c[1], 0, k, 0)
  {
    hide HandlerOf, Upper, Exec, Ordering.Listing, Glob.Matches;
    KeyNames();
    ReadEffect(ks, c, "KEYS", Keys, now);
    var matching := Glob.MatchingSet(ks.Keys, c[1]);
    ListingLists(matching);
    r := Ordering.Listing(matching);
  }

  lemma FlushEmpties(ks: Keyspace, c: Command, now: int)
    requires (Calls(c, "FLUSHALL") || Calls(c, "FLUSHDB")) && |c| >= 1
    ensures Exec(ks, c, now) == Effect(map[], Ok, [["FLUSHALL"]])
  {
    hide HandlerOf, Upper, Exec;
    ServerNames();
    if Calls(c, "FLUSHALL") {
      WriteEffect(ks, c, "FLUSHALL", FlushAll, now);
    } else {
      WriteEffect(ks, c, "FLUSHDB", FlushAll, now);
    }
  }

  // ---------------------------------------------------------------
  // Deadlines
  // ---------------------------------------------------------------

  /** The deadline that an expiry command asks for: in seconds or milliseconds, from now or absolute. */
  ghost predicate AsksFor(c: Command, n: int, now: int, deadline: int) {
    || (Calls(c, "EXPIRE") && deadline == now + 1000 * n)
    || (Calls(c, "PEXPIRE") && deadline == now + n)
    || (Calls(c, "EXPIREAT") && deadline == 1000 * n)
    || (Calls(c, "PEXPIREAT") && deadline == n)
  }

  lemma ExpiryPlan(ks: Keyspace, c: Command, n: int, now: int, deadline: int)
    requires |c| == 3 && IsInt64(n) && c[2] == IntToText(n) && AsksFor(c, n, now, deadline)
    requires (Calls(c, "EXPIRE") ==> IsInt64(1000 * n)) && IsInt64(deadline)
    ensures Exec(ks, c, now) == Perform(ks, ExpireKey(c[1], deadline), c, now)
  {
    hide HandlerOf, Upper, Exec, Perform, ParseInteger, IntToText;
    ExpiryNames();
    IntegerRoundTrip(n);
    if Calls(c, "EXPIRE") {
      WriteEffect(ks, c, "EXPIRE", Expire, now);
    } else if Calls(c, "PEXPIRE") {
      WriteEffect(ks, c, "PEXPIRE", PExpire, now);
    } else if Calls(c, "EXPIREAT") {
      WriteEffect(ks, c, "EXPIREAT", ExpireAt, now);
    } else {
      WriteEffect(ks, c, "PEXPIREAT", PExpireAt, now);
    }
  }

  /** A future deadline is set and logged as an absolute time; a passed one deletes the key and is logged as that. */
  lemma ExpirySets(ks: Keyspace, c: Command, n: int, now: int, deadline: int)
    requires |c| == 3 && IsInt64(n) && c[2] == IntToText(n) && AsksFor(c, n, now, deadline)
    requires (Calls(c, "EXPIRE") ==> IsInt64(1000 * n)) && IsInt64(deadline)
    ensures Exec(ks, c, now) ==
      if c[1] !in ks then Effect(ks, Integer(0), [])
      else if deadline <= now then Effect(ks - {c[1]}, Integer(1), [["DEL", c[1]]])
      else Effect(
        ks[c[1] := Item(ks[c[1]].value, Some(deadline))], Integer(1),
        [["PEXPIREAT", c[1], IntToText(deadline)]])
  {
    hide Exec, Upper, IntToText, AsksFor;
    ExpiryPlan(ks, c, n, now, deadline);
  }

  /** What is not a number, and what does not fit. */
  lemma ExpiryRefuses(ks: Keyspace, c: Command, now: int)
    requires |c| == 3
    requires Calls(c, "EXPIRE") || Calls(c, "PEXPIRE") || Calls(c, "EXPIREAT") || Calls(c, "PEXPIREAT")
    ensures ParseInteger(c[2]).None? ==> Exec(ks, c, now) == Effect(ks, Failure(BadInteger), [])
    ensures ParseInteger(c[2]).Some? ==>
      var n := ParseInteger(c[2]).value;
      && (Calls(c, "EXPIRE") && !(IsInt64(1000 * n) && IsInt64(now + 1000 * n)) ==>
            Exec(ks, c, now) == Effect(ks, Failure(BadExpire), []))
      && (Calls(c, "PEXPIRE") && !(IsInt64(n) && IsInt64(now + n)) ==>
            Exec(ks, c, now) == Effect(ks, Failure(BadExpire), []))
      && (Calls(c, "EXPIREAT") && !IsInt64(1000 * n) ==> Exec(ks, c, now) == Effect(ks, Failure(BadExpire), []))
  {
    hide HandlerOf, Upper, Exec, Perform, ParseInteger;
    ExpiryNames();
    if Calls(c, "EXPIRE") {
      WriteEffect(ks, c, "EXPIRE", Expire, now);
    } else if Calls(c, "PEXPIRE") {
      WriteEffect(ks, c, "PEXPIRE", PExpire, now);
    } else if Calls(c, "EXPIREAT") {
      WriteEffect(ks, c, "EXPIREAT", ExpireAt, now);
    } else {
      WriteEffect(ks, c, "PEXPIREAT", PExpireAt, now);
    }
  }

  /** A key is there before its deadline and not from its deadline on. */
  lemma DeadlineIsSharp(ks: Keyspace, key: string, deadline: int, t: int)
    requires key in ks && ks[key].deadline == Some(deadline)
    ensures key in Live(ks, t) <==> t < deadline
    ensures t < deadline ==> Live(ks, t)[key] == ks[key]
  {
  }

  /** Without a deadline it stays. */
  lemma NoDeadlineStays(ks: Keyspace, key: string, t: int)
    requires key in ks && ks[key].deadline == None
    ensures key in Live(ks, t) && Live(ks, t)[key] == ks[key]
  {
  }

  lemma PttlAnswers(ks: Keyspace, c: Command, now: int)
    requires Calls(c, "PTTL") && |c| == 2
    ensures Exec(ks, c, now) == Effect(
      ks,
      Integer(
        if c[1] !in ks then -2 else if ks[c[1]].deadline == None then -1 else ks[c[1]].deadline.value - now), [])
  {
    hide HandlerOf, Upper, Exec;
    ExpiryNames();
    ReadEffect(ks, c, "PTTL", PTtl, now);
  }

  /** TTL answers the nearest number of seconds, half a second counting as one. */
  lemma TtlAnswers(ks: Keyspace, c: Command, now: int) returns (s: int)
    requires Calls(c, "TTL") && |c| == 2
    ensures Exec(ks, c, now) == Effect(ks, Integer(s), [])
    ensures c[1] !in ks ==> s == -2
    ensures c[1] in ks && ks[c[1]].deadline == None ==> s == -1
    ensures c[1] in ks && ks[c[1]].deadline.Some? && now < ks[c[1]].deadline.value ==>
      1000 * s - 500 <= ks[c[1]].deadline.value - now < 1000 * s + 500
  {
    hide HandlerOf, Upper, Exec;
    ExpiryNames();
    ReadEffect(ks, c, "TTL", Ttl, now);
    s := TtlSeconds(TtlMs(ks, c[1], now));
  }

  lemma PersistClears(ks: Keyspace, c: Command, now: int)
    requires Calls(c, "PERSIST") && |c| == 2
    ensures Exec(ks, c, now) ==
      if c[1] in ks && ks[c[1]].deadline.Some? then
        Effect(ks[c[1] := Item(ks[c[1]].value, None)], Integer(1), [c])
      else Effect(ks, Integer(0), [])
  {
    hide HandlerOf, Upper, Exec;
    KeyNames();
    WriteEffect(ks, c, "PERSIST", Persist, now);
  }

  /** After SET with EX or PX, PTTL counts down from the amount, and the key is gone when it is used up. */
  lemma SetThenPttl(ks: Keyspace, c: Command, p: Command, n: int, now: int, t: int)
    requires Calls(c, "SET") && |c| == 5 && Unit(c[3]) > 0 && c[4] == IntToText(n)
    requires IsInt64(n) && n > 0 && IsInt64(Unit(c[3]) * n) && IsInt64(now + Unit(c[3]) * n)
    requires Calls(p, "PTTL") && |p| == 2 && p[1] == c[1] && now <= t
    ensures Exec(Live(Exec(ks, c, now).ks, t), p, t).reply ==
      Integer(if t < now + Unit(c[3]) * n then Unit(c[3]) * n - (t - now) else -2)
  {
    hide Exec, Upper, Unit, IntToText;
    SetWithDeadline(ks, c, n, now);
    var after := Exec(ks, c, now).ks;
    DeadlineIsSharp(after, c[1], now + Unit(c[3]) * n, t);
    PttlAnswers(Live(after, t), p, t);
  }

  // ---------------------------------------------------------------
  // The server
  // ---------------------------------------------------------------

  lemma PingAnswers(ks: Keyspace, c: Command, now: int)
    requires Calls(c, "PING")
    ensures Exec(ks, c, now) == Effect(
      ks, if |c| == 1 then Pong else if |c| == 2 then BulkReply(c[1]) else Failure(WrongArguments), [])
  {
    hide HandlerOf, Upper, Exec;
    ServerNames();
    ReadEffect(ks, c, "PING", Ping, now);
  }

  lemma EchoAndSelect(ks: Keyspace, c: Command, now: int)
    requires |c| == 2
    ensures Calls(c, "ECHO") ==> Exec(ks, c, now) == Effect(ks, BulkReply(c[1]), [])
    ensures Calls(c, "SELECT") ==> Exec(ks, c, now) == Effect(ks, if c[1] == "0" then Ok else Failure(BadIndex), [])
  {
    hide HandlerOf, Upper, Exec;
    ServerNames();
    if Calls(c, "ECHO") {
      ReadEffect(ks, c, "ECHO", Echo, now);
    } else if Calls(c, "SELECT") {
      ReadEffect(ks, c, "SELECT", Select, now);
    }
  }

  lemma CommandAnswers(ks: Keyspace, c: Command, now: int)
    requires Calls(c, "COMMAND")
    ensures Exec(ks, c, now) == Effect(ks, Strings([]), [])
  {
    hide HandlerOf, Upper, Exec;
    ServerNames();
    ReadEffect(ks, c, "COMMAND", CommandInfo, now);
  }

  /** QUIT, in any case and with any arguments, is answered and does nothing else. */
  lemma QuitAnswers(ks: Keyspace, c: Command, now: int)
    requires Calls(c, "QUIT")
    ensures Exec(ks, c, now) == Effect(ks, Ok, []) && Dispatch(c) == Quit
  {
    hide HandlerOf, Upper;
  }

  lemma EmptyAnswers(ks: Keyspace, now: int)
    ensures Exec(ks, [], now) == Effect(ks, Failure(EmptyCommand), [])
  {
  }

  /** MEMORY USAGE answers overhead, key and payload; each element, field or member has an overhead of its own. */
  lemma MemoryAnswers(ks: Keyspace, c: Command, now: int)
    requires Calls(c, "MEMORY") && |c| == 3 && Upper(c[1]) == "USAGE"
    ensures c[2] !in ks ==> Exec(ks, c, now) == Effect(ks, Null, [])
    ensures c[2] in ks && ks[c[2]].value.Str? ==>
      Exec(ks, c, now) == Effect(ks, Integer(96 + |c[2]| + |ks[c[2]].value.text|), [])
    ensures c[2] in ks ==> Exec(ks, c, now) == Effect(ks, Integer(EntryCost(c[2], ks[c[2]].value)), [])
  {
    hide HandlerOf, Upper, Exec;
    StateNames();
    ReadEffect(ks, c, "MEMORY", Memory, now);
  }

  lemma MemoryRefuses(ks: Keyspace, c: Command, now: int)
    requires Calls(c, "MEMORY") && |c| >= 2 && (|c| != 3 || Upper(c[1]) != "USAGE")
    ensures Exec(ks, c, now) == Effect(ks, Failure(BadSubcommand), [])
  {
    hide HandlerOf, Upper, Exec;
    StateNames();
    ReadEffect(ks, c, "MEMORY", Memory, now);
  }

  /** What one more element, field or member costs, and what an empty one costs. */
  lemma CostOfOneMore(key: string, elements: seq<string>, fields: map<string, string>, members: set<string>,
                      name: string, value: string)
    ensures EntryCost(key, List([])) == EntryCost(key, Hash(map[])) == EntryCost(key, Value.Set({})) == 96 + |key|
    ensures EntryCost(key, List(elements + [name])) == EntryCost(key, List(elements)) + |name| + 32
    ensures name !in fields ==>
      EntryCost(key, Hash(fields[name := value])) == EntryCost(key, Hash(fields)) + |name| + 32 + |value|
    ensures name !in members ==>
      EntryCost(key, Value.Set(members + {name})) == EntryCost(key, Value.Set(members)) + |name| + 32
  {
    ListCostPushBack(elements, name);
    HashCostPut(fields, name, value);
    if name !in members {
      SetCostAdd(members, name);
    }
  }
}
