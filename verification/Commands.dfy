/** The command processor of src/commands.cpp: handlers, eviction before writes, and what reaches the log. */
module Commands {
  import opened Text
  import opened Values
  import opened Keyspace
  import opened Resp
  import opened CommandSpec
  import opened CommandFacts
  import opened Storage

  // ---------------------------------------------------------------
  // How much memory arguments can bring in
  // ---------------------------------------------------------------

  ghost function Bytes(arguments: seq<string>): nat {
    if arguments == [] then 0 else Bytes(arguments[..|arguments| - 1]) + |arguments[|arguments| - 1]|
  }

  /** The overshoot allowed for one command: overhead per argument, the argument bytes, one number. */
  ghost function ArgumentCost(arguments: Command): nat {
    ENTRY_OVERHEAD * |arguments| + Bytes(arguments) + 20
  }

  lemma {:induction false} BytesAppend(a: seq<string>, b: seq<string>)
    ensures Bytes(a + b) == Bytes(a) + Bytes(b)
  {
    if b == [] {
      assert a + b == a;
    } else {
      assert (a + b)[..|a + b| - 1] == a + b[..|b| - 1];
      BytesAppend(a, b[..|b| - 1]);
    }
  }

  lemma BytesFrom(arguments: seq<string>, i: nat)
    requires i < |arguments|
    ensures Bytes(arguments) >= |arguments[i]| + Bytes(arguments[i + 1..])
  {
    assert arguments == arguments[..i] + ([arguments[i]] + arguments[i + 1..]);
    BytesAppend(arguments[..i], [arguments[i]] + arguments[i + 1..]);
    BytesAppend([arguments[i]], arguments[i + 1..]);
    assert [arguments[i]][..0] == [];
    assert Bytes([arguments[i]]) == |arguments[i]|;
  }

  lemma {:induction false} ListCostBytes(values: seq<string>)
    ensures ListCost(values) == Bytes(values) + ELEMENT_OVERHEAD * |values|
  {
    if values != [] {
      ListCostBytes(values[..|values| - 1]);
    }
  }

  lemma {:induction false} PairsCostBytes(arguments: Command, from: nat, n: nat)
    requires from <= |arguments| && (|arguments| - from) % 2 == 0 && n <= (|arguments| - from) / 2
    ensures PairsCost(PairsOf(arguments, from)[..n]) ==
            Bytes(arguments[from..from + 2 * n]) + ELEMENT_OVERHEAD * n
    decreases n
  {
    var pairs := PairsOf(arguments, from);
    if n == 0 {
      assert arguments[from..from] == [];
    } else {
      PairsCostBytes(arguments, from, n - 1);
      assert pairs[..n][..n - 1] == pairs[..n - 1];
      var a, b := arguments[from..from + 2 * n], arguments[from..from + 2 * n - 2];
      assert a == b + [arguments[from + 2 * n - 2]] + [arguments[from + 2 * n - 1]];
      assert a[..|a| - 1] == b + [arguments[from + 2 * n - 2]];
      assert (b + [arguments[from + 2 * n - 2]])[..|b|] == b;
    }
  }

  /** No update grows the store by more than its arguments account for. */
  lemma GrowthBounded(arguments: Command, m: Modifier)
    requires |arguments| >= 2
    requires m.PushValues? ==> |arguments| >= 3 && m.values == arguments[2..]
    requires m.AddMembers? ==> |arguments| >= 3 && m.added == arguments[2..]
    requires m.AppendText? ==> |arguments| >= 3 && m.text == arguments[2]
    requires m.PutFields? ==> |arguments| % 2 == 0 && m.pairs == PairsOf(arguments, 2)
    ensures Growth(arguments[1], m) <= ArgumentCost(arguments)
    ensures !Creates(m) ==> Growth(arguments[1], m) == 0
  {
    hide Bytes, ListCost, PairsCost, PairsOf;
    BytesFrom(arguments, 1);
    match m
    case PushValues(values, _) => ListCostBytes(values);
    case AddMembers(members) => ListCostBytes(members);
    case AppendText(_) => BytesFrom(arguments[2..], 0);
    case PutFields(pairs) =>
      PairsLength(arguments, 2);
      PairsCostBytes(arguments, 2, |pairs|);
      assert pairs[..|pairs|] == pairs;
      assert arguments[2..2 + 2 * |pairs|] == arguments[2..];
    case _ =>
  }

  // ---------------------------------------------------------------
  // Write handlers, by operation. Each returns its reply and the entries it logs, in order.
  // ---------------------------------------------------------------

  method FlushAllKeys(db: Database, arguments: Command, now: int) returns (reply: Reply, log: seq<Command>)
    requires db.Valid() && 0 <= now
    modifies db, db.lru
    ensures db.Valid() && db.memoryLimit == old(db.memoryLimit) && db.policy == old(db.policy)
    ensures Effect(db.View(now), reply, log) == Perform(old(db.View(now)), Op.Flush, arguments, now)
    ensures db.memoryUsed <= old(db.memoryUsed)
    ensures forall i :: 0 <= i < |db.lru| ==> db.lru[i] in old(db.lru) || fresh(db.lru[i])
    ensures db.data.Keys <= old(db.data.Keys)
  {
    hide FlushEntry;
    db.Clear();
    return Reply.Ok, [FlushEntry()];
  }

  method DeleteKeys(db: Database, arguments: Command, now: int) returns (reply: Reply, log: seq<Command>)
    requires |arguments| >= 1
    requires db.Valid() && 0 <= now
    modifies db, db.lru
    ensures db.Valid() && db.memoryLimit == old(db.memoryLimit) && db.policy == old(db.policy)
    ensures Effect(db.View(now), reply, log) == Perform(old(db.View(now)), Delete(arguments[1..]), arguments, now)
    ensures db.memoryUsed <= old(db.memoryUsed)
    ensures forall i :: 0 <= i < |db.lru| ==> db.lru[i] in old(db.lru) || fresh(db.lru[i])
    ensures db.data.Keys <= old(db.data.Keys)
  {
    hide Storage.Database.View, Storage.Database.Linked, Storage.Database.Accounted, Storage.Database.Recency;
    hide Storage.Others, Storage.Used, ToSet, DeletedCount;
    ghost var start, keys := db.View(now), arguments[1..];
    var deleted := DeleteEach(db, arguments[1..], now);
    if deleted > 0 {
      return Integer(deleted), [arguments];
    }
    return Integer(deleted), [];
  }

  method DeleteEach(db: Database, keys: seq<string>, now: int) returns (deleted: nat)
    requires db.Valid() && 0 <= now
    modifies db, db.lru
    ensures db.Valid() && db.memoryLimit == old(db.memoryLimit) && db.policy == old(db.policy)
    ensures db.View(now) == old(db.View(now)) - ToSet(keys)
    ensures deleted == DeletedCount(old(db.View(now)), keys)
    ensures db.memoryUsed <= old(db.memoryUsed)
    ensures forall i :: 0 <= i < |db.lru| ==> db.lru[i] in old(db.lru) || fresh(db.lru[i])
    ensures db.data.Keys <= old(db.data.Keys)
  {
    hide Storage.Database.View, Storage.Database.Linked, Storage.Database.Accounted, Storage.Database.Recency;
    hide Storage.Others, Storage.Used, ToSet, DeletedCount;
    deleted := 0;
    ghost var start := db.View(now);
    DeletedNone(start, keys);
    for i := 0 to |keys|
      invariant db.Valid() && db.memoryLimit == old(db.memoryLimit) && db.policy == old(db.policy)
      invariant db.View(now) == start - ToSet(keys[..i])
      invariant deleted == DeletedCount(start, keys[..i])
      invariant db.memoryUsed <= old(db.memoryUsed)
      invariant forall i :: 0 <= i < |db.lru| ==> db.lru[i] in old(db.lru)
      invariant db.data.Keys <= old(db.data.Keys)
    {
      DeletedOneMore(start, keys, i);
      var found := db.Del(keys[i], now);
      if found {
        deleted := deleted + 1;
      }
    }
    assert keys[..|keys|] == keys;
  }

  lemma DeletedNone(ks: Keyspace, keys: seq<string>)
    ensures ks - ToSet(keys[..0]) == ks && DeletedCount(ks, keys[..0]) == 0
  {
    assert keys[..0] == [];
    assert ks.Keys * ToSet([]) == {};
  }

  lemma DeletedOneMore(ks: Keyspace, keys: seq<string>, i: nat)
    requires i < |keys|
    ensures ks - ToSet(keys[..i + 1]) == ks - ToSet(keys[..i]) - {keys[i]}
    ensures DeletedCount(ks, keys[..i + 1]) ==
            DeletedCount(ks, keys[..i]) + (if keys[i] in ks - ToSet(keys[..i]) then 1 else 0)
  {
    hide ToSet;
    ToSetOneMore(keys, i);
    MinusBoth(ks, ToSet(keys[..i]), keys[i]);
    CountOneMore(ks.Keys, ToSet(keys[..i]), keys[i]);
  }

  lemma MinusBoth(ks: Keyspace, done: set<string>, key: string)
    ensures ks - (done + {key}) == ks - done - {key}
  {
  }

  lemma ToSetOneMore(keys: seq<string>, i: nat)
    requires i < |keys|
    ensures ToSet(keys[..i + 1]) == ToSet(keys[..i]) + {keys[i]}
  {
    assert keys[..i + 1] == keys[..i] + [keys[i]];
  }

  lemma CountOneMore(all: set<string>, done: set<string>, key: string)
    ensures |all * (done + {key})| == |all * done| + (if key in all && key !in done then 1 else 0)
  {
    if key in all && key !in done {
      assert all * (done + {key}) == all * done + {key};
    } else {
      assert all * (done + {key}) == all * done;
    }
  }

  method ExpireKeyAt(db: Database, key: string, deadline: int, arguments: Command, now: int)
    returns (reply: Reply, log: seq<Command>)
    requires db.Valid() && 0 <= now
    modifies db, db.lru
    ensures db.Valid() && db.memoryLimit == old(db.memoryLimit) && db.policy == old(db.policy)
    ensures Effect(db.View(now), reply, log) == Perform(old(db.View(now)), ExpireKey(key, deadline), arguments, now)
    ensures db.memoryUsed <= old(db.memoryUsed)
    ensures forall i :: 0 <= i < |db.lru| ==> db.lru[i] in old(db.lru) || fresh(db.lru[i])
    ensures db.data.Keys <= old(db.data.Keys)
  {
    hide Storage.Database.View, Storage.Database.Linked, Storage.Database.Accounted, Storage.Database.Recency;
    hide Storage.Others, Storage.Used, DelEntry, ExpiryEntry;
    var found := db.ExpireAtMs(key, deadline, now);
    if !found {
      return Integer(0), [];
    }
    var present := db.Exists(key, now);
    if present {
      return Integer(1), [ExpiryEntry(key, deadline)];
    }
    return Integer(1), [DelEntry(key)];
  }

  method PersistKeyNow(db: Database, key: string, arguments: Command, now: int)
    returns (reply: Reply, log: seq<Command>)
    requires db.Valid() && 0 <= now
    modifies db, db.lru
    ensures db.Valid() && db.memoryLimit == old(db.memoryLimit) && db.policy == old(db.policy)
    ensures Effect(db.View(now), reply, log) == Perform(old(db.View(now)), PersistKey(key), arguments, now)
    ensures db.memoryUsed <= old(db.memoryUsed)
    ensures forall i :: 0 <= i < |db.lru| ==> db.lru[i] in old(db.lru) || fresh(db.lru[i])
    ensures db.data.Keys <= old(db.data.Keys)
  {
    hide Storage.Database.View, Storage.Database.Linked, Storage.Database.Accounted, Storage.Database.Recency;
    hide Storage.Others, Storage.Used;
    var cleared := db.Persist(key, now);
    if !cleared {
      return Integer(0), [];
    }
    return Integer(1), [arguments];
  }

  /** SET with its conditions and its deadline; the two parts are logged separately. */
  method StoreConditionally(db: Database, op: Op, arguments: Command, now: int)
    returns (reply: Reply, log: seq<Command>)
    requires op.StoreString? && OpOk(op, now)
    requires db.Valid() && 0 <= now
    modifies db, db.lru
    ensures db.Valid() && db.memoryLimit == old(db.memoryLimit) && db.policy == old(db.policy)
    ensures Effect(db.View(now), reply, log) == Perform(old(db.View(now)), op, arguments, now)
    ensures db.memoryUsed <= old(db.memoryUsed) + ENTRY_OVERHEAD + |op.key| + |op.value|
    ensures forall i :: 0 <= i < |db.lru| ==> db.lru[i] in old(db.lru) || fresh(db.lru[i])
    ensures db.data.Keys <= old(db.data.Keys) + {op.key}
  {
    hide Storage.Database.View, Storage.Database.Linked, Storage.Database.Accounted, Storage.Database.Recency;
    hide Storage.Others, Storage.Used, SetEntry, ExpiryEntry;
    var key := op.key;
    ghost var start := db.View(now);
    var present := db.Exists(key, now);
    if (op.onlyIfMissing && present) || (op.onlyIfPresent && !present) {
      return Null, [];
    }
    db.Set(key, op.value, now);
    if op.expiry.None? {
      assert [SetEntry(key, op.value)] + [] == [SetEntry(key, op.value)];
      return Reply.Ok, [SetEntry(key, op.value)];
    }
    var _ := db.ExpireAtMs(key, op.expiry.value, now);
    PutTwice(start, key, Item(Str(op.value), None), Item(Str(op.value), op.expiry));
    return Reply.Ok, [SetEntry(key, op.value)] + [ExpiryEntry(key, op.expiry.value)];
  }

  method StoreEach(db: Database, arguments: Command, ghost pairs: seq<(string, string)>, now: int)
    returns (reply: Reply, log: seq<Command>)
    requires 1 <= |arguments| && (|arguments| - 1) % 2 == 0 && pairs == PairsOf(arguments, 1)
    requires db.Valid() && 0 <= now
    modifies db, db.lru
    ensures db.Valid() && db.memoryLimit == old(db.memoryLimit) && db.policy == old(db.policy)
    ensures Effect(db.View(now), reply, log) ==
            Perform(old(db.View(now)), StoreMany(pairs), arguments, now)
    ensures db.memoryUsed <= old(db.memoryUsed) + ArgumentCost(arguments)
    ensures forall i :: 0 <= i < |db.lru| ==> db.lru[i] in old(db.lru) || fresh(db.lru[i])
    ensures db.data.Keys <= old(db.data.Keys) + ToSet(arguments)
  {
    hide Storage.Database.View, Storage.Database.Linked, Storage.Database.Accounted, Storage.Database.Recency;
    hide Storage.Others, Storage.Used, StoreAll, Bytes, PairsOf, ToSet;
    StorePairs(db, arguments, pairs, now);
    BytesFrom(arguments, 0);
    return Reply.Ok, [arguments];
  }

  method StorePairs(db: Database, arguments: Command, ghost pairs: seq<(string, string)>, now: int)
    requires 1 <= |arguments| && (|arguments| - 1) % 2 == 0 && pairs == PairsOf(arguments, 1)
    requires db.Valid() && 0 <= now
    modifies db, db.lru
    ensures db.Valid() && db.memoryLimit == old(db.memoryLimit) && db.policy == old(db.policy)
    ensures db.View(now) == StoreAll(old(db.View(now)), pairs)
    ensures db.memoryUsed <= old(db.memoryUsed) + ENTRY_OVERHEAD * |arguments| + Bytes(arguments[1..])
    ensures forall i :: 0 <= i < |db.lru| ==> db.lru[i] in old(db.lru) || fresh(db.lru[i])
    ensures db.data.Keys <= old(db.data.Keys) + ToSet(arguments)
  {
    hide Storage.Database.View, Storage.Database.Linked, Storage.Database.Accounted, Storage.Database.Recency;
    hide Storage.Others, Storage.Used, StoreAll, Bytes, ToSet;
    ghost var start := db.View(now);
    StoreNone(start, pairs, arguments);
    for j := 0 to (|arguments| - 1) / 2
      invariant db.Valid() && db.memoryLimit == old(db.memoryLimit) && db.policy == old(db.policy)
      invariant db.View(now) == StoreAll(start, pairs[..j])
      invariant db.memoryUsed <= old(db.memoryUsed) + ENTRY_OVERHEAD * j + Bytes(arguments[1..1 + 2 * j])
      invariant forall i :: 0 <= i < |db.lru| ==> db.lru[i] in old(db.lru) || fresh(db.lru[i])
      invariant db.data.Keys <= old(db.data.Keys) + ToSet(arguments)
    {
      StoreOneMore(start, pairs, j);
      InSet(arguments, 1 + 2 * j);
      BytesTwoMore(arguments, 1 + 2 * j);
      db.Set(arguments[1 + 2 * j], arguments[2 + 2 * j], now);
    }
    assert pairs[..|pairs|] == pairs;
    assert arguments[1..1 + 2 * |pairs|] == arguments[1..];
  }

  lemma InSet(arguments: Command, i: nat)
    requires i < |arguments|
    ensures arguments[i] in ToSet(arguments)
  {
  }

  lemma StoreNone(ks: Keyspace, pairs: seq<(string, string)>, arguments: Command)
    requires |arguments| >= 1
    ensures StoreAll(ks, pairs[..0]) == ks && Bytes(arguments[1..1]) == 0
  {
  }

  lemma StoreOneMore(ks: Keyspace, pairs: seq<(string, string)>, j: nat)
    requires j < |pairs|
    ensures StoreAll(ks, pairs[..j + 1]) == StoreAll(ks, pairs[..j])[pairs[j].0 := Item(Str(pairs[j].1), None)]
  {
    assert pairs[..j + 1][..j] == pairs[..j];
  }

  lemma BytesTwoMore(arguments: Command, i: nat)
    requires 1 <= i && i + 2 <= |arguments|
    ensures Bytes(arguments[1..i + 2]) == Bytes(arguments[1..i]) + |arguments[i]| + |arguments[i + 1]|
  {
    var a := arguments[1..i + 2];
    assert a[..|a| - 1] == arguments[1..i + 1];
    assert arguments[1..i + 1][..i - 1] == arguments[1..i];
  }

  /** The operations on one value. */
  method UpdateValue(db: Database, key: string, m: Modifier, now: int) returns (r: Result<Answer>)
    requires Sized(m)
    requires key in db.View(now) ==> Proper(db.View(now)[key].value)
    requires db.Valid() && 0 <= now
    modifies db, db.lru
    ensures db.Valid() && db.memoryLimit == old(db.memoryLimit) && db.policy == old(db.policy)
    ensures Did(old(db.View(now)), key, m, db.View(now), r)
    ensures db.memoryUsed <= old(db.memoryUsed) + Growth(key, m)
    ensures forall i :: 0 <= i < |db.lru| ==> db.lru[i] in old(db.lru) || fresh(db.lru[i])
    ensures db.data.Keys <= old(db.data.Keys) + {key}
  {
    hide Storage.Database.View, Storage.Database.Linked, Storage.Database.Accounted, Storage.Database.Recency;
    hide Storage.Others, Storage.Used, Did, Modify;
    match m {
      case Increment(delta) => r := db.IncrementBy(key, delta, now);
      case AppendText(text) => r := db.AppendTo(key, text, now);
      case PushValues(values, side) => r := db.ListPush(key, values, side, now);
      case PopValue(side) => r := db.ListPop(key, side, now);
      case PutFields(pairs) => r := db.HashSet(key, pairs, now);
      case RemoveFields(names) => r := db.HashDelete(key, names, now);
      case AddMembers(members) => r := db.SetAdd(key, members, now);
      case RemoveMembers(members) => r := db.SetRemove(key, members, now);
    }
  }

  /** Calls the store, logs what the handler logs, and answers. */
  method UpdateAndLog(db: Database, key: string, m: Modifier, arguments: Command, now: int)
    returns (reply: Reply, log: seq<Command>)
    requires Sized(m)
    requires key in db.View(now) ==> Proper(db.View(now)[key].value)
    requires db.Valid() && 0 <= now
    modifies db, db.lru
    ensures db.Valid() && db.memoryLimit == old(db.memoryLimit) && db.policy == old(db.policy)
    ensures Effect(db.View(now), reply, log) == PerformUpdate(old(db.View(now)), key, m, arguments)
    ensures db.memoryUsed <= old(db.memoryUsed) + Growth(key, m)
    ensures forall i :: 0 <= i < |db.lru| ==> db.lru[i] in old(db.lru) || fresh(db.lru[i])
    ensures db.data.Keys <= old(db.data.Keys) + {key}
  {
    hide Storage.Database.View, Storage.Database.Linked, Storage.Database.Accounted, Storage.Database.Recency;
    hide Storage.Others, Storage.Used, Did, Modify, Recorded, Growth, ReplyTo, PerformUpdate;
    var r := UpdateValue(db, key, m, now);
    DidIsPerformed(old(db.View(now)), key, m, db.View(now), r, arguments);
    match r
    case Raised(error) => return Failure(Problem.Store(error)), [];
    case Returned(answer) => return ReplyTo(answer), if Recorded(m, answer) then [arguments] else [];
  }

  lemma DidIsPerformed(before: Keyspace, key: string, m: Modifier, after: Keyspace, r: Result<Answer>,
                       arguments: Command)
    requires Did(before, key, m, after, r)
    ensures match r
            case Raised(error) =>
              PerformUpdate(before, key, m, arguments) == Effect(after, Failure(Problem.Store(error)), [])
            case Returned(answer) =>
              PerformUpdate(before, key, m, arguments) ==
              Effect(after, ReplyTo(answer), if Recorded(m, answer) then [arguments] else [])
  {
    hide Modify;
  }

  // ---------------------------------------------------------------
  // From a write command to its operation
  // ---------------------------------------------------------------

  /** The option loop of SET. */
  method ReadOptions(arguments: Command, now: int) returns (plan: Plan)
    requires |arguments| >= 3
    ensures plan == PlanSet(arguments, now)
  {
    hide ParseInteger, Upper, DeadlineOf, ReadSetOptions;
    var onlyIfMissing, onlyIfPresent, deadline: Option<int> := false, false, None;
    var i := 3;
    while i < |arguments|
      invariant 3 <= i <= |arguments|
      invariant ReadSetOptions(arguments, 3, NoOptions, now) ==
                ReadSetOptions(arguments, i, SetOptions(onlyIfMissing, onlyIfPresent, deadline), now)
    {
      NextOption(arguments, i, SetOptions(onlyIfMissing, onlyIfPresent, deadline), now);
      var option := Upper(arguments[i]);
      if option == "NX" {
        onlyIfMissing := true;
      } else if option == "XX" {
        onlyIfPresent := true;
      } else if (option == "EX" || option == "PX") && i + 1 < |arguments| && deadline.None? {
        i := i + 1;
        var amount := ParseInteger(arguments[i]);
        if amount.None? {
          return Refuse(BadInteger);
        }
        var when := DeadlineOf(amount.value, if option == "EX" then 1000 else 1, false, now);
        if amount.value <= 0 || when.None? {
          return Refuse(BadExpire);
        }
        deadline := when;
      } else {
        return Refuse(BadSyntax);
      }
      i := i + 1;
    }
    LastOption(arguments, SetOptions(onlyIfMissing, onlyIfPresent, deadline), now);
    if onlyIfMissing && onlyIfPresent {
      return Refuse(BadSyntax);
    }
    return Do(StoreString(arguments[1], arguments[2], onlyIfMissing, onlyIfPresent, deadline));
  }

  /** One turn of the option loop. */
  lemma NextOption(arguments: Command, i: nat, sofar: SetOptions, now: int)
    requires i < |arguments|
    ensures ReadSetOptions(arguments, i, sofar, now) ==
            var option := Upper(arguments[i]);
            if option == "NX" then ReadSetOptions(arguments, i + 1, sofar.(onlyIfMissing := true), now)
            else if option == "XX" then ReadSetOptions(arguments, i + 1, sofar.(onlyIfPresent := true), now)
            else if (option == "EX" || option == "PX") && i + 1 < |arguments| && sofar.expiry.None? then
              match SetExpiry(arguments[i + 1], if option == "EX" then 1000 else 1, now)
              case Refuse(problem) => BadOptions(problem)
              case Do(op) => ReadSetOptions(arguments, i + 2, sofar.(expiry := Some(op.deadline)), now)
            else BadOptions(BadSyntax)
  {
    hide ParseInteger, Upper, DeadlineOf;
  }

  lemma LastOption(arguments: Command, sofar: SetOptions, now: int)
    ensures ReadSetOptions(arguments, |arguments|, sofar, now) ==
            if sofar.onlyIfMissing && sofar.onlyIfPresent then BadOptions(BadSyntax) else GoodOptions(sofar)
  {
  }

  /** The operation's keys and values are the command's own arguments. */
  ghost predicate FromArguments(op: Op, arguments: Command) {
    match op
    case Delete(keys) => 1 <= |arguments| && keys == arguments[1..]
    case ExpireKey(key, _) => |arguments| >= 2 && key == arguments[1]
    case StoreString(key, value, _, _, _) => |arguments| >= 3 && key == arguments[1] && value == arguments[2]
    case StoreMany(pairs) =>
      1 <= |arguments| && (|arguments| - 1) % 2 == 0 && pairs == PairsOf(arguments, 1)
    case Update(key, m) =>
      && |arguments| >= 2 && key == arguments[1]
      && (m.PushValues? ==> |arguments| >= 3 && m.values == arguments[2..])
      && (m.AddMembers? ==> |arguments| >= 3 && m.added == arguments[2..])
      && (m.AppendText? ==> |arguments| >= 3 && m.text == arguments[2])
      && (m.PutFields? ==> |arguments| % 2 == 0 && m.pairs == PairsOf(arguments, 2))
    case _ => true
  }

  /** Operations that can add to the memory estimate. */
  predicate Grows(op: Op) {
    op.StoreString? || op.StoreMany? || (op.Update? && Creates(op.m))
  }

  /** Only commands marked as refusable under memory pressure have operations that grow the store. */
  lemma PlanFromArguments(h: Handler, arguments: Command, now: int)
    requires IsWrite(h) && ArityOk(h, |arguments|)
    requires PlanWrite(h, arguments, now).Do?
    ensures FromArguments(PlanWrite(h, arguments, now).op, arguments)
    ensures Grows(PlanWrite(h, arguments, now).op) <==> DenyOom(h)
  {
    hide ParseInteger, ReadSetOptions, DeadlineOf, PairsOf, ModifierOf;
    if ChangesValue(h) && (h.HSet? ==> |arguments| % 2 == 0) {
      ModifierFromArguments(h, arguments);
    }
  }

  lemma ModifierFromArguments(h: Handler, arguments: Command)
    requires ChangesValue(h) && ArityOk(h, |arguments|) && (h.HSet? ==> |arguments| % 2 == 0)
    ensures |arguments| >= 2 && FromArguments(Update(arguments[1], ModifierOf(h, arguments)), arguments)
    ensures Creates(ModifierOf(h, arguments)) <==> DenyOom(h)
  {
    hide PairsOf;
  }

  lemma StringBounded(arguments: Command)
    requires |arguments| >= 3
    ensures ENTRY_OVERHEAD + |arguments[1]| + |arguments[2]| <= ArgumentCost(arguments)
  {
    hide Bytes;
    BytesFrom(arguments, 1);
    BytesFrom(arguments[2..], 0);
  }

  /** Runs an operation on the store. */
  method RunOperation(db: Database, op: Op, arguments: Command, now: int) returns (reply: Reply, log: seq<Command>)
    requires OpOk(op, now) && FromArguments(op, arguments)
    requires db.Valid() && 0 <= now && AllProper(db.View(now))
    modifies db, db.lru
    ensures db.Valid() && db.memoryLimit == old(db.memoryLimit) && db.policy == old(db.policy)
    ensures Effect(db.View(now), reply, log) == Perform(old(db.View(now)), op, arguments, now)
    ensures db.memoryUsed <= old(db.memoryUsed) + (if Grows(op) then ArgumentCost(arguments) else 0)
    ensures forall i :: 0 <= i < |db.lru| ==> db.lru[i] in old(db.lru) || fresh(db.lru[i])
    ensures db.data.Keys <= old(db.data.Keys) + ToSet(arguments)
  {
    hide Storage.Database.View, Storage.Database.Linked, Storage.Database.Accounted, Storage.Database.Recency;
    hide Storage.Others, Storage.Used, Perform, Bytes, ArgumentCost, PairsOf, Growth, ToSet;
    if |arguments| > 1 {
      InSet(arguments, 1);
    }
    match op
    case Flush => reply, log := FlushAllKeys(db, arguments, now);
    case Delete(keys) => reply, log := DeleteKeys(db, arguments, now);
    case ExpireKey(key, deadline) => reply, log := ExpireKeyAt(db, key, deadline, arguments, now);
    case PersistKey(key) => reply, log := PersistKeyNow(db, key, arguments, now);
    case StoreString(_, _, _, _, _) =>
      StringBounded(arguments);
      reply, log := StoreConditionally(db, op, arguments, now);
    case StoreMany(pairs) => reply, log := StoreEach(db, arguments, pairs, now);
    case Update(key, m) =>
      GrowthBounded(arguments, m);
      UpdateIsPerformed(db.View(now), op, arguments, now);
      reply, log := UpdateAndLog(db, key, m, arguments, now);
  }

  lemma UpdateIsPerformed(ks: Keyspace, op: Op, arguments: Command, now: int)
    requires op.Update?
    ensures Perform(ks, op, arguments, now) == PerformUpdate(ks, op.key, op.m, arguments)
  {
    hide PerformUpdate;
  }

  /** Any write command that has been let through. */
  method RunWrite(db: Database, h: Handler, arguments: Command, now: int) returns (reply: Reply, log: seq<Command>)
    requires IsWrite(h) && ArityOk(h, |arguments|)
    requires db.Valid() && 0 <= now && AllProper(db.View(now))
    modifies db, db.lru
    ensures db.Valid() && db.memoryLimit == old(db.memoryLimit) && db.policy == old(db.policy)
    ensures Effect(db.View(now), reply, log) ==
            RunPlan(old(db.View(now)), PlanWrite(h, arguments, now), arguments, now)
    ensures db.memoryUsed <= old(db.memoryUsed) + (if DenyOom(h) then ArgumentCost(arguments) else 0)
    ensures forall i :: 0 <= i < |db.lru| ==> db.lru[i] in old(db.lru) || fresh(db.lru[i])
    ensures db.data.Keys <= old(db.data.Keys) + ToSet(arguments)
  {
    hide Storage.Database.View, Storage.Database.Linked, Storage.Database.Accounted, Storage.Database.Recency;
    hide Storage.Others, Storage.Used, Perform, ArgumentCost, PlanSet, FromArguments, OpOk, Grows;
    var plan;
    if h.SetString? {
      plan := ReadOptions(arguments, now);
    } else {
      plan := PlanWrite(h, arguments, now);
    }
    match plan
    case Refuse(problem) => return Failure(problem), [];
    case Do(op) =>
      PlanOk(h, arguments, now);
      PlanFromArguments(h, arguments, now);
      reply, log := RunOperation(db, op, arguments, now);
  }

  /** Keys that fit a command within the parser's limits. */
  ghost predicate KeysFit(keys: set<string>) {
    forall k :: k in keys ==> |k| <= MAX_BULK_SIZE
  }

  /** Keys that come from commands within the limits are within them. */
  lemma KeysStayFit(before: set<string>, arguments: Command, after: set<string>)
    requires KeysFit(before) && WithinLimits(arguments) && after <= before + ToSet(arguments)
    ensures KeysFit(after)
  {
  }

  lemma PlanOfArguments(arguments: Command, now: int)
    requires PlanOf(arguments, now).Some?
    ensures FromArguments(PlanOf(arguments, now).value, arguments)
  {
    hide Dispatch, PlanWrite, FromArguments;
    PlanFromArguments(Dispatch(arguments).h, arguments, now);
  }

  lemma EntriesWithinLimits(arguments: Command, deadline: int)
    requires |arguments| >= 2 && WithinLimits(arguments) && IsInt64(deadline)
    ensures WithinLimits(DelEntry(arguments[1])) && WithinLimits(ExpiryEntry(arguments[1], deadline))
    ensures WithinLimits(FlushEntry())
    ensures |arguments| >= 3 ==> WithinLimits(SetEntry(arguments[1], arguments[2]))
  {
    hide IntToText;
    IntegerTextLength(deadline);
  }

  /** What a command logs is within the parser's limits if the command itself is. */
  lemma LogWithinLimits(ks: Keyspace, arguments: Command, now: int)
    requires WithinLimits(arguments)
    ensures var log := Exec(ks, arguments, now).log;
            forall i :: 0 <= i < |log| ==> WithinLimits(log[i])
  {
    hide Exec, PlanOf, PerformUpdate, WithinLimits, DelEntry, SetEntry, ExpiryEntry, FlushEntry, IntToText;
    ExecShape(ks, arguments, now);
    match PlanOf(arguments, now)
    case Some(op) =>
      PlanOfArguments(arguments, now);
      match op {
        case Flush => FlushWithinLimits();
        case ExpireKey(_, deadline) => EntriesWithinLimits(arguments, deadline);
        case StoreString(_, _, _, _, expiry) =>
          EntriesWithinLimits(arguments, if expiry.Some? then expiry.value else 0);
        case Update(key, m) => UpdateLog(ks, key, m, arguments);
        case _ =>
      }
    case None =>
  }

  lemma FlushWithinLimits()
    ensures WithinLimits(FlushEntry())
  {
  }

  lemma UpdateLog(ks: Keyspace, key: string, m: Modifier, arguments: Command)
    ensures var log := PerformUpdate(ks, key, m, arguments).log; log == [] || log == [arguments]
  {
    hide Modify;
  }
}
