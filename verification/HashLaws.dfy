/** What the hash and set commands do and answer, field by field and member by member. */
module HashLaws {
  import opened Text
  import opened Values
  import opened Keyspace
  import opened Resp
  import opened CommandSpec
  import opened CommandFacts
  import opened Names
  import opened StringLaws
  import opened ListLaws
  import Ordering

  function FieldsAt(ks: Keyspace, key: string): map<string, string>
    requires key in ks ==> ks[key].value.Hash?
  {
    if key in ks then ks[key].value.fields else map[]
  }

  function MembersAt(ks: Keyspace, key: string): set<string>
    requires key in ks ==> ks[key].value.Set?
  {
    if key in ks then ks[key].value.members else {}
  }

  /** The arguments from position 2 on, as a set. */
  function Listed(c: Command): set<string> {
    set i | 2 <= i < |c| :: c[i]
  }

  // ---------------------------------------------------------------
  // HSET
  // ---------------------------------------------------------------

  /** The fields are the old ones and those named; each of these holds what follows it where it is named last. */
  ghost predicate FieldsNamed(before: map<string, string>, c: Command, after: map<string, string>) {
    && (forall f :: f in after <==> f in before || f in Named(c, 2))
    && (forall i :: LastNamed(c, 2, i) ==> c[i] in after && after[c[i]] == c[i + 1])
    && (forall f :: f in before && f !in Named(c, 2) ==> f in after && after[f] == before[f])
  }

  lemma {:induction false} PutAllMeans(fields: map<string, string>, pairs: seq<(string, string)>, key: string)
    ensures (exists j :: 0 <= j < |pairs| && pairs[j].0 == key) ==>
      exists j :: LastPair(pairs, j, key) && key in PutAll(fields, pairs) && PutAll(fields, pairs)[key] == pairs[j].1
    ensures !(exists j :: 0 <= j < |pairs| && pairs[j].0 == key) ==>
      (key in PutAll(fields, pairs) <==> key in fields)
      && (key in fields ==> PutAll(fields, pairs)[key] == fields[key])
  {
    if pairs != [] {
      var init, last := pairs[..|pairs| - 1], pairs[|pairs| - 1];
      PutAllMeans(fields, init, key);
      if last.0 == key {
        assert LastPair(pairs, |pairs| - 1, key);
      } else if j :| 0 <= j < |pairs| && pairs[j].0 == key {
        assert init[j].0 == key;
        var k :| LastPair(init, k, key) && key in PutAll(fields, init) && PutAll(fields, init)[key] == init[k].1;
        assert LastPair(pairs, k, key);
      }
    }
  }

  lemma PairsPutNamed(fields: map<string, string>, c: Command)
    requires |c| >= 2 && (|c| - 2) % 2 == 0
    ensures FieldsNamed(fields, c, PutAll(fields, PairsOf(c, 2)))
  {
    hide PairsOf, PutAll, LastNamed, Named;
    var pairs := PairsOf(c, 2);
    var after := PutAll(fields, pairs);
    forall f ensures f in after <==> f in fields || f in Named(c, 2) {
      PairsNamed(c, 2, f);
      PutAllMeans(fields, pairs, f);
    }
    forall i | LastNamed(c, 2, i) ensures 0 <= i && i + 1 < |c| && c[i] in after && after[c[i]] == c[i + 1] {
      IsNamed(c, 2, i);
      PairsNamed(c, 2, c[i]);
      PutAllMeans(fields, pairs, c[i]);
      var j :| LastPair(pairs, j, c[i]) && c[i] in after && after[c[i]] == pairs[j].1;
      LastPairNamed(c, 2, i, j);
    }
    forall f | f in fields && f !in Named(c, 2) ensures f in after && after[f] == fields[f] {
      PairsNamed(c, 2, f);
      PutAllMeans(fields, pairs, f);
    }
  }

  lemma NewFields(before: map<string, string>, c: Command, after: map<string, string>)
    requires FieldsNamed(before, c, after)
    ensures |after| - |before| == |Named(c, 2) - before.Keys|
  {
    hide Named, LastNamed;
    assert after.Keys == before.Keys + (Named(c, 2) - before.Keys);
  }

  lemma PutEffect(ks: Keyspace, key: string, pairs: seq<(string, string)>, c: Command)
    ensures key in ks && !ks[key].value.Hash? ==>
      PerformUpdate(ks, key, PutFields(pairs), c) == Effect(ks, Failure(Store(WrongType)), [])
    ensures (key in ks ==> ks[key].value.Hash?) ==>
      var before := FieldsAt(ks, key);
      var after := PutAll(before, pairs);
      PerformUpdate(ks, key, PutFields(pairs), c) ==
        Effect(ks[key := Item(Hash(after), DeadlineAt(ks, key))], Integer(|after| - |before|), [c])
  {
    hide PutAll;
  }

  /** HSET answers how many fields are new, and keeps the deadline. */
  lemma HSetPuts(ks: Keyspace, c: Command, now: int) returns (after: map<string, string>)
    requires Calls(c, "HSET") && |c| >= 4 && |c| % 2 == 0 && (c[1] in ks ==> ks[c[1]].value.Hash?)
    ensures FieldsNamed(FieldsAt(ks, c[1]), c, after)
    ensures Exec(ks, c, now) == Effect(
      ks[c[1] := Item(Hash(after), DeadlineAt(ks, c[1]))],
      Integer(|Named(c, 2) - FieldsAt(ks, c[1]).Keys|), [c])
  {
    hide HandlerOf, Upper, Exec, PairsOf, PutAll, FieldsNamed, Named, PerformUpdate;
    HashNames();
    UpdateEffect(ks, c, "HSET", HSet, now);
    PutEffect(ks, c[1], PairsOf(c, 2), c);
    after := PutAll(FieldsAt(ks, c[1]), PairsOf(c, 2));
    PairsPutNamed(FieldsAt(ks, c[1]), c);
    NewFields(FieldsAt(ks, c[1]), c, after);
  }

  lemma HSetRefuses(ks: Keyspace, c: Command, now: int)
    requires Calls(c, "HSET") && |c| >= 4
    ensures |c| % 2 == 1 ==> WrongCount(ks, c, now)
    ensures |c| % 2 == 0 && c[1] in ks && !ks[c[1]].value.Hash? ==>
      Exec(ks, c, now) == Effect(ks, Failure(Store(WrongType)), [])
  {
    hide HandlerOf, Upper, Exec, PairsOf, PerformUpdate;
    HashNames();
    WriteEffect(ks, c, "HSET", HSet, now);
    if |c| % 2 == 0 {
      PutEffect(ks, c[1], PairsOf(c, 2), c);
    }
  }

  // ---------------------------------------------------------------
  // HDEL, SADD, SREM
  // ---------------------------------------------------------------

  lemma ListedIsToSet(c: Command)
    requires |c| >= 2
    ensures ToSet(c[2..]) == Listed(c)
  {
    forall x ensures x in ToSet(c[2..]) <==> x in Listed(c) {
      if x in Listed(c) {
        var i :| 2 <= i < |c| && c[i] == x;
        assert c[2..][i - 2] == x;
      }
      if x in c[2..] {
        var j :| 0 <= j < |c| - 2 && c[2..][j] == x;
        assert c[j + 2] == x;
      }
    }
  }

  lemma RemoveEffect(ks: Keyspace, key: string, names: seq<string>, c: Command)
    requires key in ks && ks[key].value.Hash?
    ensures var fields := ks[key].value.fields;
      var left := fields - ToSet(names);
      PerformUpdate(ks, key, RemoveFields(names), c) == Effect(
        if left == map[] then ks - {key} else ks[key := Item(Hash(left), ks[key].deadline)],
        Integer(|fields| - |left|), if |fields| - |left| > 0 then [c] else [])
  {
    hide ToSet;
  }

  /** HDEL removes the fields named and answers how many there were; an emptied hash goes. */
  lemma HDelRemoves(ks: Keyspace, c: Command, now: int)
    requires Calls(c, "HDEL") && |c| >= 3 && c[1] in ks && ks[c[1]].value.Hash?
    ensures var fields := ks[c[1]].value.fields;
      var gone := fields.Keys * Listed(c);
      Exec(ks, c, now) == Effect(
        if fields.Keys <= Listed(c) then ks - {c[1]}
        else ks[c[1] := Item(Hash(fields - Listed(c)), ks[c[1]].deadline)],
        Integer(|gone|), if gone == {} then [] else [c])
  {
    hide HandlerOf, Upper, Exec, ToSet, Listed, PerformUpdate;
    HashNames();
    ListedIsToSet(c);
    UpdateEffect(ks, c, "HDEL", HDel, now);
    RemoveEffect(ks, c[1], c[2..], c);
    RemovedFields(ks[c[1]].value.fields, Listed(c));
  }

  lemma RemovedFields(fields: map<string, string>, names: set<string>)
    ensures |fields| - |fields - names| == |fields.Keys * names|
    ensures fields - names == map[] <==> fields.Keys <= names
    ensures |fields.Keys * names| > 0 <==> fields.Keys * names != {}
  {
    assert fields.Keys == (fields - names).Keys + fields.Keys * names;
    assert (fields - names).Keys == fields.Keys - names;
    if fields - names == map[] {
      forall f | f in fields ensures f in names {
        assert f !in (fields - names);
      }
    }
  }

  lemma AddEffect(ks: Keyspace, key: string, names: seq<string>, c: Command)
    ensures key in ks && !ks[key].value.Set? ==>
      PerformUpdate(ks, key, AddMembers(names), c) == Effect(ks, Failure(Store(WrongType)), [])
    ensures (key in ks ==> ks[key].value.Set?) ==>
      var before := MembersAt(ks, key);
      var after := before + ToSet(names);
      PerformUpdate(ks, key, AddMembers(names), c) == Effect(
        ks[key := Item(Value.Set(after), DeadlineAt(ks, key))],
        Integer(|after| - |before|), if |after| - |before| > 0 then [c] else [])
  {
    hide ToSet;
  }

  /** SADD adds the members and answers how many are new; it is logged if any is. */
  lemma SAddAdds(ks: Keyspace, c: Command, now: int)
    requires Calls(c, "SADD") && |c| >= 3 && (c[1] in ks ==> ks[c[1]].value.Set?)
    ensures var members := MembersAt(ks, c[1]);
      var added := Listed(c) - members;
      Exec(ks, c, now) == Effect(
        ks[c[1] := Item(Value.Set(members + Listed(c)), DeadlineAt(ks, c[1]))],
        Integer(|added|), if added == {} then [] else [c])
  {
    hide HandlerOf, Upper, Exec, ToSet, Listed, PerformUpdate;
    SetNames();
    ListedIsToSet(c);
    UpdateEffect(ks, c, "SADD", SAdd, now);
    AddEffect(ks, c[1], c[2..], c);
    AddedMembers(MembersAt(ks, c[1]), Listed(c));
  }

  lemma AddedMembers(members: set<string>, names: set<string>)
    ensures |members + names| - |members| == |names - members|
    ensures |names - members| > 0 <==> names - members != {}
  {
    assert members + names == members + (names - members);
  }

  lemma SAddWrongType(ks: Keyspace, c: Command, now: int)
    requires Calls(c, "SADD") && |c| >= 3 && c[1] in ks && !ks[c[1]].value.Set?
    ensures Exec(ks, c, now) == Effect(ks, Failure(Store(WrongType)), [])
  {
    hide HandlerOf, Upper, Exec, ToSet, PerformUpdate;
    SetNames();
    UpdateEffect(ks, c, "SADD", SAdd, now);
    AddEffect(ks, c[1], c[2..], c);
  }

  /** SREM removes the members and answers how many there were; an emptied set goes. */
  lemma SRemRemoves(ks: Keyspace, c: Command, now: int)
    requires Calls(c, "SREM") && |c| >= 3 && c[1] in ks && ks[c[1]].value.Set?
    ensures var members := ks[c[1]].value.members;
      var gone := members * Listed(c);
      Exec(ks, c, now) == Effect(
        if members <= Listed(c) then ks - {c[1]}
        else ks[c[1] := Item(Value.Set(members - Listed(c)), ks[c[1]].deadline)],
        Integer(|gone|), if gone == {} then [] else [c])
  {
    hide HandlerOf, Upper, Exec, ToSet, Listed;
    SetNames();
    ListedIsToSet(c);
    UpdateEffect(ks, c, "SREM", SRem, now);
    RemovedMembers(ks[c[1]].value.members, Listed(c));
  }

  lemma RemovedMembers(members: set<string>, names: set<string>)
    ensures |members| - |members - names| == |members * names|
    ensures members - names == {} <==> members <= names
    ensures |members * names| > 0 <==> members * names != {}
  {
    assert members == (members - names) + members * names;
    if members - names == {} {
      forall x | x in members ensures x in names {
        assert x !in members - names;
      }
    }
  }

  /** On a missing key nothing is removed; on another kind of value nothing is done. */
  lemma HDelNothing(ks: Keyspace, c: Command, now: int)
    requires |c| >= 3 && Calls(c, "HDEL")
    ensures c[1] !in ks ==> Exec(ks, c, now) == Effect(ks, Integer(0), [])
    ensures c[1] in ks && !ks[c[1]].value.Hash? ==> Exec(ks, c, now) == Effect(ks, Failure(Store(WrongType)), [])
  {
    hide HandlerOf, Upper, Exec, ToSet;
    HashNames();
    UpdateEffect(ks, c, "HDEL", HDel, now);
    assert c[1] !in ks ==> ks - {c[1]} == ks;
  }

  lemma SRemNothing(ks: Keyspace, c: Command, now: int)
    requires |c| >= 3 && Calls(c, "SREM")
    ensures c[1] !in ks ==> Exec(ks, c, now) == Effect(ks, Integer(0), [])
    ensures c[1] in ks && !ks[c[1]].value.Set? ==> Exec(ks, c, now) == Effect(ks, Failure(Store(WrongType)), [])
  {
    hide HandlerOf, Upper, Exec, ToSet;
    SetNames();
    UpdateEffect(ks, c, "SREM", SRem, now);
    assert c[1] !in ks ==> ks - {c[1]} == ks;
  }

  // ---------------------------------------------------------------
  // Reading
  // ---------------------------------------------------------------

  lemma HGetAnswers(ks: Keyspace, c: Command, now: int)
    requires Calls(c, "HGET") && |c| == 3
    ensures Exec(ks, c, now) == Effect(
      ks,
      if c[1] !in ks then Null
      else if !ks[c[1]].value.Hash? then Failure(Store(WrongType))
      else if c[2] in ks[c[1]].value.fields then BulkReply(ks[c[1]].value.fields[c[2]])
      else Null, [])
  {
    hide HandlerOf, Upper, Exec;
    HashNames();
    ReadEffect(ks, c, "HGET", HGet, now);
  }

  lemma MembershipAnswers(ks: Keyspace, c: Command, now: int)
    requires |c| == 3
    ensures Calls(c, "HEXISTS") ==> Exec(ks, c, now) == Effect(
      ks,
      if c[1] !in ks then Integer(0)
      else if !ks[c[1]].value.Hash? then Failure(Store(WrongType))
      else Integer(if c[2] in ks[c[1]].value.fields then 1 else 0), [])
    ensures Calls(c, "SISMEMBER") ==> Exec(ks, c, now) == Effect(
      ks,
      if c[1] !in ks then Integer(0)
      else if !ks[c[1]].value.Set? then Failure(Store(WrongType))
      else Integer(if c[2] in ks[c[1]].value.members then 1 else 0), [])
  {
    hide HandlerOf, Upper, Exec;
    FieldNames();
    SetNames();
    if Calls(c, "HEXISTS") {
      ReadEffect(ks, c, "HEXISTS", HExists, now);
    } else if Calls(c, "SISMEMBER") {
      ReadEffect(ks, c, "SISMEMBER", SIsMember, now);
    }
  }

  lemma SizeAnswers(ks: Keyspace, c: Command, now: int)
    requires |c| == 2
    ensures Calls(c, "HLEN") ==> Exec(ks, c, now) == Effect(
      ks,
      if c[1] !in ks then Integer(0)
      else if ks[c[1]].value.Hash? then Integer(|ks[c[1]].value.fields|)
      else Failure(Store(WrongType)), [])
    ensures Calls(c, "SCARD") ==> Exec(ks, c, now) == Effect(
      ks,
      if c[1] !in ks then Integer(0)
      else if ks[c[1]].value.Set? then Integer(|ks[c[1]].value.members|)
      else Failure(Store(WrongType)), [])
  {
    hide HandlerOf, Upper, Exec;
    HashNames();
    SetNames();
    if Calls(c, "HLEN") {
      ReadEffect(ks, c, "HLEN", HLen, now);
    } else if Calls(c, "SCARD") {
      ReadEffect(ks, c, "SCARD", SCard, now);
    }
  }

  // ---------------------------------------------------------------
  // Listing
  // ---------------------------------------------------------------

  /** In ascending order, each once, and exactly these. */
  ghost predicate Lists(r: seq<string>, names: set<string>) {
    && Ordering.Ascending(r)
    && (forall x :: x in r <==> x in names)
  }

  lemma ListingLists(names: set<string>)
    ensures Lists(Ordering.Listing(names), names) && |Ordering.Listing(names)| == |names|
  {
    hide Ordering.Listing;
    Ordering.ListingSound(names);
  }

  lemma SMembersAnswers(ks: Keyspace, c: Command, now: int) returns (r: seq<string>)
    requires Calls(c, "SMEMBERS") && |c| == 2 && (c[1] in ks ==> ks[c[1]].value.Set?)
    ensures Exec(ks, c, now) == Effect(ks, Strings(r), [])
    ensures Lists(r, MembersAt(ks, c[1]))
  {
    hide HandlerOf, Upper, Exec, Ordering.Listing;
    SetNames();
    ReadEffect(ks, c, "SMEMBERS", SMembers, now);
    ListingLists(MembersAt(ks, c[1]));
    r := if c[1] in ks then Ordering.Listing(ks[c[1]].value.members) else [];
  }

  lemma {:induction false} FlattenAt(fields: map<string, string>, order: seq<string>, i: nat)
    requires i < |order| && forall j :: 0 <= j < |order| ==> order[j] in fields
    ensures Flatten(fields, order, true, false) == order
    ensures |Flatten(fields, order, false, true)| == |order|
    ensures Flatten(fields, order, false, true)[i] == fields[order[i]]
    ensures |Flatten(fields, order, true, true)| == 2 * |order|
    ensures Flatten(fields, order, true, true)[2 * i] == order[i]
    ensures Flatten(fields, order, true, true)[2 * i + 1] == fields[order[i]]
  {
    var init := order[..|order| - 1];
    assert order == init + [order[|order| - 1]];
    if i < |init| {
      FlattenAt(fields, init, i);
    } else if init != [] {
      FlattenAt(fields, init, 0);
    }
  }

  ghost predicate InOrder(fields: map<string, string>, names: seq<string>, r: seq<string>) {
    |r| == |names| && forall i :: 0 <= i < |names| ==> names[i] in fields && r[i] == fields[names[i]]
  }

  ghost predicate InTurn(fields: map<string, string>, names: seq<string>, r: seq<string>) {
    && |r| == 2 * |names|
    && forall i :: 0 <= i < |names| ==>
         names[i] in fields && r[2 * i] == names[i] && r[2 * i + 1] == fields[names[i]]
  }

  /** HKEYS lists the field names, HVALS the values in the order of their names, HGETALL both in turn. */
  lemma HashListed(ks: Keyspace, c: Command, now: int) returns (names: seq<string>, r: seq<string>)
    requires (Calls(c, "HKEYS") || Calls(c, "HVALS") || Calls(c, "HGETALL")) && |c| == 2
    requires c[1] in ks && ks[c[1]].value.Hash?
    ensures Exec(ks, c, now) == Effect(ks, Strings(r), [])
    ensures var fields := ks[c[1]].value.fields;
      && Lists(names, fields.Keys)
      && (Calls(c, "HKEYS") ==> r == names)
      && (Calls(c, "HVALS") ==> InOrder(fields, names, r))
      && (Calls(c, "HGETALL") ==> InTurn(fields, names, r))
  {
    hide HandlerOf, Upper, Exec, Ordering.Listing, Flatten;
    var fields := ks[c[1]].value.fields;
    names := Ordering.Listing(fields.Keys);
    ListingLists(fields.Keys);
    var keys, vals := Calls(c, "HKEYS"), Calls(c, "HVALS");
    r := Flatten(fields, names, !vals, !keys);
    HashListReply(ks, c, now);
    forall i | 0 <= i < |names|
      ensures Flatten(fields, names, true, false) == names
      ensures |Flatten(fields, names, false, true)| == |names|
      ensures |Flatten(fields, names, true, true)| == 2 * |names|
      ensures Flatten(fields, names, false, true)[i] == fields[names[i]]
      ensures Flatten(fields, names, true, true)[2 * i] == names[i]
      ensures Flatten(fields, names, true, true)[2 * i + 1] == fields[names[i]]
    {
      FlattenAt(fields, names, i);
    }
    if names == [] {
      FlattenNothing(fields);
    }
  }

  lemma FlattenNothing(fields: map<string, string>)
    ensures forall a, b :: Flatten(fields, [], a, b) == []
  {
  }

  lemma HashListReply(ks: Keyspace, c: Command, now: int)
    requires (Calls(c, "HKEYS") || Calls(c, "HVALS") || Calls(c, "HGETALL")) && |c| == 2
    ensures Exec(ks, c, now) ==
      Effect(ks, HashReply(ValueAt(ks, c[1]), !Calls(c, "HVALS"), !Calls(c, "HKEYS")), [])
  {
    hide HandlerOf, Upper, Exec, HashReply;
    HashNames();
    FieldNames();
    if Calls(c, "HKEYS") {
      ReadEffect(ks, c, "HKEYS", HKeys, now);
    } else if Calls(c, "HVALS") {
      ReadEffect(ks, c, "HVALS", HVals, now);
    } else {
      ReadEffect(ks, c, "HGETALL", HGetAll, now);
    }
  }

  /** Without the key the list is empty; on another kind of value there is none. */
  lemma NothingListed(ks: Keyspace, c: Command, now: int)
    requires (Calls(c, "HKEYS") || Calls(c, "HVALS") || Calls(c, "HGETALL")) && |c| == 2
    ensures c[1] !in ks ==> Exec(ks, c, now) == Effect(ks, Strings([]), [])
    ensures c[1] in ks && !ks[c[1]].value.Hash? ==> Exec(ks, c, now) == Effect(ks, Failure(Store(WrongType)), [])
  {
    hide HandlerOf, Upper, Exec, Ordering.Listing, Flatten;
    HashListReply(ks, c, now);
  }
}
