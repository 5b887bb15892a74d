/**
 * The read handlers of src/commands.cpp. They leave the unexpired keyspace as it is. They may
 * remove expired entries, which DBSIZE and INFO can tell, and touch keys, which decides what
 * is evicted later.
 */
module Queries {
  import opened Text
  import opened Values
  import opened Keyspace
  import opened Resp
  import opened CommandSpec
  import opened Storage
  import Ordering

  /** EXISTS counts a key as often as it is named. */
  method CountPresent(db: Database, keys: seq<string>, now: int) returns (found: nat)
    requires db.Valid()
    modifies db, db.lru
    ensures db.Valid() && db.memoryLimit == old(db.memoryLimit) && db.policy == old(db.policy)
    ensures db.View(now) == old(db.View(now)) && found == PresentCount(old(db.View(now)), keys)
    ensures db.memoryUsed <= old(db.memoryUsed)
    ensures forall i :: 0 <= i < |db.lru| ==> db.lru[i] in old(db.lru)
    ensures db.data.Keys <= old(db.data.Keys)
  {
    hide Storage.Database.View, Storage.Database.Linked, Storage.Database.Accounted, Storage.Database.Recency;
    hide Storage.Others, Storage.Used, PresentCount;
    found := 0;
    PresentNone(db.View(now), keys);
    for j := 0 to |keys|
      invariant db.Valid() && db.memoryLimit == old(db.memoryLimit) && db.policy == old(db.policy)
      invariant db.View(now) == old(db.View(now)) && found == PresentCount(old(db.View(now)), keys[..j])
      invariant db.memoryUsed <= old(db.memoryUsed)
      invariant forall i :: 0 <= i < |db.lru| ==> db.lru[i] in old(db.lru)
      invariant db.data.Keys <= old(db.data.Keys)
    {
      PresentOneMore(db.View(now), keys, j);
      var present := db.Exists(keys[j], now);
      if present {
        found := found + 1;
      }
    }
    assert keys[..|keys|] == keys;
  }

  lemma PresentNone(ks: Keyspace, keys: seq<string>)
    ensures PresentCount(ks, keys[..0]) == 0 && GetAll(ks, keys[..0]) == []
  {
  }

  lemma PresentOneMore(ks: Keyspace, keys: seq<string>, j: nat)
    requires j < |keys|
    ensures PresentCount(ks, keys[..j + 1]) == PresentCount(ks, keys[..j]) + if keys[j] in ks then 1 else 0
  {
    assert keys[..j + 1][..j] == keys[..j];
  }

  /** MGET answers nil for a missing key and for a key that holds another kind of value. */
  method GetEach(db: Database, keys: seq<string>, now: int) returns (found: seq<Option<string>>)
    requires db.Valid()
    modifies db, db.lru
    ensures db.Valid() && db.memoryLimit == old(db.memoryLimit) && db.policy == old(db.policy)
    ensures db.View(now) == old(db.View(now)) && found == GetAll(old(db.View(now)), keys)
    ensures db.memoryUsed <= old(db.memoryUsed)
    ensures forall i :: 0 <= i < |db.lru| ==> db.lru[i] in old(db.lru)
    ensures db.data.Keys <= old(db.data.Keys)
  {
    hide Storage.Database.View, Storage.Database.Linked, Storage.Database.Accounted, Storage.Database.Recency;
    hide Storage.Others, Storage.Used, GetAll;
    found := [];
    PresentNone(db.View(now), keys);
    for j := 0 to |keys|
      invariant db.Valid() && db.memoryLimit == old(db.memoryLimit) && db.policy == old(db.policy)
      invariant db.View(now) == old(db.View(now)) && found == GetAll(old(db.View(now)), keys[..j])
      invariant db.memoryUsed <= old(db.memoryUsed)
      invariant forall i :: 0 <= i < |db.lru| ==> db.lru[i] in old(db.lru)
      invariant db.data.Keys <= old(db.data.Keys)
    {
      GetOneMore(db.View(now), keys, j);
      var r := db.Get(keys[j], now);
      found := found + [if r.Returned? then r.value else None];
    }
    assert keys[..|keys|] == keys;
  }

  lemma GetOneMore(ks: Keyspace, keys: seq<string>, j: nat)
    requires j < |keys|
    ensures GetAll(ks, keys[..j + 1]) == GetAll(ks, keys[..j]) +
            [match ValueAt(ks, keys[j]) case None => None case Some(v) => if v.Str? then Some(v.text) else None]
  {
    assert keys[..j + 1][..j] == keys[..j];
  }

  /** HGETALL, HKEYS and HVALS list a hash in the order of its field names. */
  method ListHash(db: Database, key: string, names: bool, values: bool, now: int) returns (reply: Reply)
    requires db.Valid()
    modifies db, db.lru
    ensures db.Valid() && db.memoryLimit == old(db.memoryLimit) && db.policy == old(db.policy)
    ensures db.View(now) == old(db.View(now))
    ensures reply == HashReply(ValueAt(old(db.View(now)), key), names, values)
    ensures db.memoryUsed <= old(db.memoryUsed)
    ensures forall i :: 0 <= i < |db.lru| ==> db.lru[i] in old(db.lru)
    ensures db.data.Keys <= old(db.data.Keys)
  {
    hide Storage.Database.View, Storage.Database.Linked, Storage.Database.Accounted, Storage.Database.Recency;
    hide Storage.Others, Storage.Used;
    var r := db.LookupWhole(key, true, now);
    match r
    case Raised(error) => return Failure(Problem.Store(error));
    case Returned(None) => return Strings([]);
    case Returned(Some(v)) =>
      var items := FlattenSorted(v.fields, names, values);
      return Strings(items);
  }

  method FlattenSorted(fields: map<string, string>, names: bool, values: bool) returns (r: seq<string>)
    ensures r == HashListing(fields, names, values)
  {
    hide Flatten, Ordering.Listing;
    var order := Ordering.SortedListing(fields.Keys);
    Ordering.ListingMembers(fields.Keys);
    r := [];
    FlattenNone(fields, order, names, values);
    for j := 0 to |order|
      invariant r == Flatten(fields, order[..j], names, values)
    {
      FlattenOneMore(fields, order, j, names, values);
      var name := order[j];
      if names {
        r := r + [name];
      }
      if values {
        r := r + [fields[name]];
      }
    }
    assert order[..|order|] == order;
  }

  lemma FlattenNone(fields: map<string, string>, order: seq<string>, names: bool, values: bool)
    ensures Flatten(fields, order[..0], names, values) == []
  {
  }

  lemma FlattenOneMore(fields: map<string, string>, order: seq<string>, j: nat, names: bool, values: bool)
    requires j < |order| && order[j] in fields
    ensures Flatten(fields, order[..j + 1], names, values) ==
            Flatten(fields, order[..j], names, values)
              + (if names then [order[j]] else []) + (if values then [fields[order[j]]] else [])
  {
    assert order[..j + 1][..j] == order[..j];
  }

  method ListMembers(db: Database, key: string, now: int) returns (reply: Reply)
    requires db.Valid()
    modifies db, db.lru
    ensures db.Valid() && db.memoryLimit == old(db.memoryLimit) && db.policy == old(db.policy)
    ensures db.View(now) == old(db.View(now))
    ensures reply == MembersReply(ValueAt(old(db.View(now)), key))
    ensures db.memoryUsed <= old(db.memoryUsed)
    ensures forall i :: 0 <= i < |db.lru| ==> db.lru[i] in old(db.lru)
    ensures db.data.Keys <= old(db.data.Keys)
  {
    hide Storage.Database.View, Storage.Database.Linked, Storage.Database.Accounted, Storage.Database.Recency;
    hide Storage.Others, Storage.Used, Ordering.Listing;
    var r := db.LookupWhole(key, false, now);
    match r
    case Raised(error) => return Failure(Problem.Store(error));
    case Returned(None) => return Strings([]);
    case Returned(Some(v)) =>
      var items := Ordering.SortedListing(v.members);
      return Strings(items);
  }

  /** LRANGE and LINDEX parse their numbers before they look at the key. */
  method ReadRange(db: Database, key: string, start: string, stop: string, now: int) returns (reply: Reply)
    requires db.Valid()
    modifies db, db.lru
    ensures db.Valid() && db.memoryLimit == old(db.memoryLimit) && db.policy == old(db.policy)
    ensures db.View(now) == old(db.View(now))
    ensures reply == RangeReply(ValueAt(old(db.View(now)), key), start, stop)
    ensures db.memoryUsed <= old(db.memoryUsed)
    ensures forall i :: 0 <= i < |db.lru| ==> db.lru[i] in old(db.lru)
    ensures db.data.Keys <= old(db.data.Keys)
  {
    hide Storage.Database.View, Storage.Database.Linked, Storage.Database.Accounted, Storage.Database.Recency;
    hide Storage.Others, Storage.Used, ParseInteger, Slice;
    var first, last := ParseInteger(start), ParseInteger(stop);
    if first.None? || last.None? {
      return Failure(BadInteger);
    }
    var r := db.ListRange(key, first.value, last.value, now);
    return if r.Returned? then Strings(r.value) else Failure(Problem.Store(r.error));
  }

  method ReadIndex(db: Database, key: string, index: string, now: int) returns (reply: Reply)
    requires db.Valid()
    modifies db, db.lru
    ensures db.Valid() && db.memoryLimit == old(db.memoryLimit) && db.policy == old(db.policy)
    ensures db.View(now) == old(db.View(now))
    ensures reply == IndexReply(ValueAt(old(db.View(now)), key), index)
    ensures db.memoryUsed <= old(db.memoryUsed)
    ensures forall i :: 0 <= i < |db.lru| ==> db.lru[i] in old(db.lru)
    ensures db.data.Keys <= old(db.data.Keys)
  {
    hide Storage.Database.View, Storage.Database.Linked, Storage.Database.Accounted, Storage.Database.Recency;
    hide Storage.Others, Storage.Used, ParseInteger, ElementAt;
    var at := ParseInteger(index);
    if at.None? {
      return Failure(BadInteger);
    }
    var r := db.ListIndex(key, at.value, now);
    return if r.Returned? then NullableBulk(r.value) else Failure(Problem.Store(r.error));
  }

  method ReadText(db: Database, key: string, now: int) returns (reply: Reply)
    requires db.Valid()
    modifies db, db.lru
    ensures db.Valid() && db.memoryLimit == old(db.memoryLimit) && db.policy == old(db.policy)
    ensures db.View(now) == old(db.View(now))
    ensures reply == GetReply(ValueAt(old(db.View(now)), key))
    ensures db.memoryUsed <= old(db.memoryUsed)
    ensures forall i :: 0 <= i < |db.lru| ==> db.lru[i] in old(db.lru)
    ensures db.data.Keys <= old(db.data.Keys)
  {
    hide Storage.Database.View, Storage.Database.Linked, Storage.Database.Accounted, Storage.Database.Recency;
    hide Storage.Others, Storage.Used;
    var r := db.Get(key, now);
    return if r.Returned? then NullableBulk(r.value) else Failure(Problem.Store(r.error));
  }

  method ReadField(db: Database, key: string, name: string, now: int) returns (reply: Reply)
    requires db.Valid()
    modifies db, db.lru
    ensures db.Valid() && db.memoryLimit == old(db.memoryLimit) && db.policy == old(db.policy)
    ensures db.View(now) == old(db.View(now))
    ensures reply == FieldReply(ValueAt(old(db.View(now)), key), name)
    ensures db.memoryUsed <= old(db.memoryUsed)
    ensures forall i :: 0 <= i < |db.lru| ==> db.lru[i] in old(db.lru)
    ensures db.data.Keys <= old(db.data.Keys)
  {
    hide Storage.Database.View, Storage.Database.Linked, Storage.Database.Accounted, Storage.Database.Recency;
    hide Storage.Others, Storage.Used;
    var r := db.HashGet(key, name, now);
    return if r.Returned? then NullableBulk(r.value) else Failure(Problem.Store(r.error));
  }

  method ReadTtl(db: Database, key: string, now: int) returns (remaining: int)
    requires db.Valid()
    modifies db, db.lru
    ensures db.Valid() && db.memoryLimit == old(db.memoryLimit) && db.policy == old(db.policy)
    ensures db.View(now) == old(db.View(now))
    ensures remaining == TtlMs(old(db.View(now)), key, now)
    ensures db.memoryUsed <= old(db.memoryUsed)
    ensures forall i :: 0 <= i < |db.lru| ==> db.lru[i] in old(db.lru)
    ensures db.data.Keys <= old(db.data.Keys)
  {
    hide Storage.Database.View, Storage.Database.Linked, Storage.Database.Accounted, Storage.Database.Recency;
    hide Storage.Others, Storage.Used;
    remaining := db.TtlMs(key, now);
  }

  method ReadValue(db: Database, h: Handler, key: string, name: string, now: int) returns (reply: Reply)
    requires OnlyLooks(h)
    requires db.Valid()
    modifies db, db.lru
    ensures db.Valid() && db.memoryLimit == old(db.memoryLimit) && db.policy == old(db.policy)
    ensures db.View(now) == old(db.View(now))
    ensures reply == LookReply(h, ValueAt(old(db.View(now)), key), name)
    ensures db.memoryUsed <= old(db.memoryUsed)
    ensures forall i :: 0 <= i < |db.lru| ==> db.lru[i] in old(db.lru)
    ensures db.data.Keys <= old(db.data.Keys)
  {
    hide Storage.Database.View, Storage.Database.Linked, Storage.Database.Accounted, Storage.Database.Recency;
    hide Storage.Others, Storage.Used, LengthReply, MemberReply;
    var v := db.Lookup(key, now);
    if h.TypeOf? {
      return Kind(v);
    } else if h.StrLen? {
      return LengthReply(v, Str(""));
    } else if h.LLen? {
      return LengthReply(v, List([]));
    } else if h.HLen? {
      return LengthReply(v, Hash(map[]));
    } else if h.SCard? {
      return LengthReply(v, Set({}));
    }
    return MemberReply(v, name, h.HExists?);
  }

  method ReadKey(db: Database, h: Handler, key: string, first: string, second: string, now: int) returns (reply: Reply)
    requires ReadsKey(h)
    requires db.Valid()
    modifies db, db.lru
    ensures db.Valid() && db.memoryLimit == old(db.memoryLimit) && db.policy == old(db.policy)
    ensures db.View(now) == old(db.View(now))
    ensures reply == KeyReply(old(db.View(now)), h, key, first, second, now)
    ensures db.memoryUsed <= old(db.memoryUsed)
    ensures forall i :: 0 <= i < |db.lru| ==> db.lru[i] in old(db.lru)
    ensures db.data.Keys <= old(db.data.Keys)
  {
    hide Storage.Database.View, Storage.Database.Linked, Storage.Database.Accounted, Storage.Database.Recency;
    hide Storage.Others, Storage.Used, RangeReply, IndexReply, HashReply, MembersReply, GetReply, FieldReply;
    hide TtlMs, TtlSeconds;
    if h.Ttl? {
      var remaining := ReadTtl(db, key, now);
      return Integer(TtlSeconds(remaining));
    } else if h.PTtl? {
      var remaining := ReadTtl(db, key, now);
      return Integer(remaining);
    } else if h.Get? {
      reply := ReadText(db, key, now);
    } else if h.HGet? {
      reply := ReadField(db, key, first, now);
    } else if h.LRange? {
      reply := ReadRange(db, key, first, second, now);
    } else if h.LIndex? {
      reply := ReadIndex(db, key, first, now);
    } else if h.SMembers? {
      reply := ListMembers(db, key, now);
    } else {
      reply := ListHash(db, key, !h.HVals?, !h.HKeys?, now);
    }
  }

  /** Commands that read many keys or none. */
  method ReadServer(db: Database, h: Handler, arguments: Command, now: int) returns (reply: Reply)
    requires |arguments| >= 1 && !h.Config?
    requires db.Valid()
    modifies db, db.lru
    ensures db.Valid() && db.memoryLimit == old(db.memoryLimit) && db.policy == old(db.policy)
    ensures db.View(now) == old(db.View(now))
    ensures if h.DbSize? then reply == Integer(|old(db.data)|)
      else if h.Info? then reply.BulkReply?
      else reply == ServerReply(old(db.View(now)), h, arguments)
    ensures db.memoryUsed <= old(db.memoryUsed)
    ensures forall i :: 0 <= i < |db.lru| ==> db.lru[i] in old(db.lru)
    ensures db.data.Keys <= old(db.data.Keys)
  {
    hide Storage.Database.View, Storage.Database.Linked, Storage.Database.Accounted, Storage.Database.Recency;
    hide Storage.Others, Storage.Used, EntryCost;
    if h.Ping? {
      return if |arguments| == 1 then Pong
             else if |arguments| == 2 then BulkReply(arguments[1])
             else Failure(WrongArguments);
    } else if h.Echo? {
      return BulkReply(Argument(arguments, 1));
    } else if h.Select? {
      return if Argument(arguments, 1) != "0" then Failure(BadIndex) else Reply.Ok;
    } else if h.CommandInfo? {
      return Strings([]);
    } else if h.DbSize? {
      var n := db.Size(now);
      return Integer(n);
    } else if h.Memory? {
      if Upper(Argument(arguments, 1)) != "USAGE" || |arguments| != 3 {
        return Failure(BadSubcommand);
      }
      var info := db.Inspect(arguments[2], now);
      return if info.None? then Null else Integer(info.value.2);
    } else if h.Exists? {
      var found := CountPresent(db, arguments[1..], now);
      return Integer(found);
    } else if h.Keys? {
      var keys := db.KeysMatching(Argument(arguments, 1), now);
      return Strings(keys);
    } else if h.MGet? {
      var found := GetEach(db, arguments[1..], now);
      return Reply.Values(found);
    } else if h.Info? {
      var report: string := *;
      return BulkReply(report);
    }
    return Unspecified;
  }

  /** Any read command but CONFIG. */
  method RunRead(db: Database, h: Handler, arguments: Command, now: int) returns (reply: Reply)
    requires |arguments| >= 1 && !h.Config?
    requires db.Valid()
    modifies db, db.lru
    ensures db.Valid() && db.memoryLimit == old(db.memoryLimit) && db.policy == old(db.policy)
    ensures db.View(now) == old(db.View(now))
    ensures if h.DbSize? then reply == Integer(|old(db.data)|)
      else if h.Info? then reply.BulkReply?
      else reply == Query(old(db.View(now)), h, arguments, now)
    ensures db.memoryUsed <= old(db.memoryUsed)
    ensures forall i :: 0 <= i < |db.lru| ==> db.lru[i] in old(db.lru)
    ensures db.data.Keys <= old(db.data.Keys)
  {
    hide Storage.Database.View, Storage.Database.Linked, Storage.Database.Accounted, Storage.Database.Recency;
    hide Storage.Others, Storage.Used, LookReply, KeyReply, ServerReply;
    if OnlyLooks(h) {
      reply := ReadValue(db, h, Argument(arguments, 1), Argument(arguments, 2), now);
    } else if ReadsKey(h) {
      reply := ReadKey(db, h, Argument(arguments, 1), Argument(arguments, 2), Argument(arguments, 3), now);
    } else {
      reply := ReadServer(db, h, arguments, now);
    }
  }
}
