/** What the string commands do and answer, from their arguments alone. */
module StringLaws {
  import opened Text
  import opened Values
  import opened Keyspace
  import opened Resp
  import opened CommandSpec
  import opened CommandFacts
  import opened Commands
  import opened Names

  // ---------------------------------------------------------------
  // SET
  // ---------------------------------------------------------------

  /** The whole effect of a SET that is carried out: any deadline before is gone. */
  ghost function Stored(ks: Keyspace, c: Command, deadline: Option<int>): Effect
    requires |c| >= 3
  {
    Effect(
      ks[c[1] := Item(Str(c[2]), deadline)], Ok,
      if deadline.None? then [["SET", c[1], c[2]]]
      else [["SET", c[1], c[2]], ["PEXPIREAT", c[1], IntToText(deadline.value)]])
  }

  /** What SET comes to, given its options. */
  lemma SetOutcome(ks: Keyspace, c: Command, now: int)
    requires Calls(c, "SET") && |c| >= 3
    ensures Exec(ks, c, now) ==
      match ReadSetOptions(c, 3, NoOptions, now)
      case BadOptions(problem) => Effect(ks, Failure(problem), [])
      case GoodOptions(o) =>
        if (o.onlyIfMissing && c[1] in ks) || (o.onlyIfPresent && c[1] !in ks) then Effect(ks, Null, [])
        else Stored(ks, c, o.expiry)
  {
    hide HandlerOf, Upper, Exec, ReadSetOptions, IntToText;
    StringNames();
    WriteEffect(ks, c, "SET", SetString, now);
    match ReadSetOptions(c, 3, NoOptions, now)
    case BadOptions(_) =>
    case GoodOptions(o) =>
      assert [SetEntry(c[1], c[2])] + [] == [SetEntry(c[1], c[2])];
      if o.expiry.Some? {
        var first, second := SetEntry(c[1], c[2]), ExpiryEntry(c[1], o.expiry.value);
        assert [first] + [second] == [first, second];
      }
  }

  lemma PlainSet(ks: Keyspace, c: Command, now: int)
    requires Calls(c, "SET") && |c| == 3
    ensures Exec(ks, c, now) == Stored(ks, c, None)
  {
    hide Exec, Upper, ReadSetOptions, Stored;
    SetOutcome(ks, c, now);
    LastOption(c, NoOptions, now);
  }

  /** Milliseconds in the unit of a time option, or 0 if it is not one. */
  function Unit(option: string): nat {
    if Upper(option) == "EX" then 1000 else if Upper(option) == "PX" then 1 else 0
  }

  lemma TimeOption(c: Command, i: nat, sofar: SetOptions, n: int, now: int)
    requires i + 1 < |c| && Unit(c[i]) > 0 && c[i + 1] == IntToText(n) && sofar.expiry.None?
    requires IsInt64(n) && n > 0 && IsInt64(Unit(c[i]) * n) && IsInt64(now + Unit(c[i]) * n)
    ensures ReadSetOptions(c, i, sofar, now) ==
      ReadSetOptions(c, i + 2, sofar.(expiry := Some(now + Unit(c[i]) * n)), now)
  {
    hide ReadSetOptions, Upper, IntToText, ParseInteger;
    NextOption(c, i, sofar, now);
    IntegerRoundTrip(n);
  }

  /** SET with EX or PX: the deadline is in the store and in the log. */
  lemma SetWithDeadline(ks: Keyspace, c: Command, n: int, now: int)
    requires Calls(c, "SET") && |c| == 5 && Unit(c[3]) > 0 && c[4] == IntToText(n)
    requires IsInt64(n) && n > 0 && IsInt64(Unit(c[3]) * n) && IsInt64(now + Unit(c[3]) * n)
    ensures Exec(ks, c, now) == Stored(ks, c, Some(now + Unit(c[3]) * n))
  {
    hide Exec, Upper, ReadSetOptions, Stored, Unit;
    SetOutcome(ks, c, now);
    TimeOption(c, 3, NoOptions, n, now);
    LastOption(c, NoOptions.(expiry := Some(now + Unit(c[3]) * n)), now);
  }

  /** NX does nothing on a present key, XX nothing on a missing one; otherwise they are as if not there. */
  lemma SetConditionally(ks: Keyspace, c: Command, now: int)
    requires Calls(c, "SET") && |c| == 4 && Upper(c[3]) in {"NX", "XX"}
    ensures Exec(ks, c, now) ==
      if (c[1] in ks) == (Upper(c[3]) == "XX") then Stored(ks, c, None) else Effect(ks, Null, [])
  {
    hide Exec, Upper, ReadSetOptions, Stored;
    SetOutcome(ks, c, now);
    NextOption(c, 3, NoOptions, now);
    LastOption(c, NoOptions.(onlyIfMissing := true), now);
    LastOption(c, NoOptions.(onlyIfPresent := true), now);
  }

  /** Condition and deadline together, in either order. */
  lemma SetBoth(ks: Keyspace, c: Command, at: nat, n: int, now: int)
    requires Calls(c, "SET") && |c| == 6 && (at == 3 || at == 4)
    requires Unit(c[at]) > 0 && c[at + 1] == IntToText(n) && Upper(c[if at == 3 then 5 else 3]) in {"NX", "XX"}
    requires IsInt64(n) && n > 0 && IsInt64(Unit(c[at]) * n) && IsInt64(now + Unit(c[at]) * n)
    ensures Exec(ks, c, now) ==
      if (c[1] in ks) == (Upper(c[if at == 3 then 5 else 3]) == "XX") then Stored(ks, c, Some(now + Unit(c[at]) * n))
      else Effect(ks, Null, [])
  {
    hide Exec, Upper, ReadSetOptions, Stored, Unit;
    SetOutcome(ks, c, now);
    var deadline := Some(now + Unit(c[at]) * n);
    if at == 3 {
      TimeOption(c, 3, NoOptions, n, now);
      NextOption(c, 5, NoOptions.(expiry := deadline), now);
    } else {
      NextOption(c, 3, NoOptions, now);
      TimeOption(c, 4, NoOptions.(onlyIfMissing := true), n, now);
      TimeOption(c, 4, NoOptions.(onlyIfPresent := true), n, now);
    }
    LastOption(c, SetOptions(true, false, deadline), now);
    LastOption(c, SetOptions(false, true, deadline), now);
  }

  /** Times that are not positive, do not fit or are not numbers. */
  lemma SetBadTime(ks: Keyspace, c: Command, now: int)
    requires Calls(c, "SET") && |c| == 5 && Unit(c[3]) > 0
    ensures ParseInteger(c[4]).None? ==> Exec(ks, c, now) == Effect(ks, Failure(BadInteger), [])
    ensures ParseInteger(c[4]).Some? ==>
      var n := ParseInteger(c[4]).value;
      n <= 0 || !IsInt64(Unit(c[3]) * n) || !IsInt64(now + Unit(c[3]) * n) ==>
        Exec(ks, c, now) == Effect(ks, Failure(BadExpire), [])
  {
    hide Exec, Upper, ReadSetOptions, ParseInteger, Stored;
    SetOutcome(ks, c, now);
    NextOption(c, 3, NoOptions, now);
  }

  /** Options that are not options, and NX together with XX. */
  lemma SetBadSyntax(ks: Keyspace, c: Command, now: int)
    requires Calls(c, "SET") && |c| >= 4
    ensures Upper(c[3]) !in {"NX", "XX", "EX", "PX"} ==> Exec(ks, c, now) == Effect(ks, Failure(BadSyntax), [])
    ensures |c| == 4 && Upper(c[3]) in {"EX", "PX"} ==> Exec(ks, c, now) == Effect(ks, Failure(BadSyntax), [])
    ensures |c| == 5 && {Upper(c[3]), Upper(c[4])} == {"NX", "XX"} ==>
      Exec(ks, c, now) == Effect(ks, Failure(BadSyntax), [])
  {
    hide Exec, Upper, ReadSetOptions, Stored;
    SetOutcome(ks, c, now);
    NextOption(c, 3, NoOptions, now);
    if |c| == 5 {
      var both := {Upper(c[3]), Upper(c[4])};
      assert both == {"NX", "XX"} ==> Upper(c[3]) in {"NX", "XX"} && Upper(c[4]) in {"NX", "XX"};
      assert both == {"NX", "XX"} ==> "NX" in both && "XX" in both;
      NextOption(c, 4, NoOptions.(onlyIfMissing := true), now);
      NextOption(c, 4, NoOptions.(onlyIfPresent := true), now);
      LastOption(c, SetOptions(true, true, None), now);
    }
  }

  /** A second time option, after one that is good. */
  lemma SetTwoTimes(ks: Keyspace, c: Command, n: int, now: int)
    requires Calls(c, "SET") && |c| >= 6 && Unit(c[3]) > 0 && c[4] == IntToText(n) && Unit(c[5]) > 0
    requires IsInt64(n) && n > 0 && IsInt64(Unit(c[3]) * n) && IsInt64(now + Unit(c[3]) * n)
    ensures Exec(ks, c, now) == Effect(ks, Failure(BadSyntax), [])
  {
    hide Exec, Upper, ReadSetOptions, Stored;
    SetOutcome(ks, c, now);
    TimeOption(c, 3, NoOptions, n, now);
    NextOption(c, 5, NoOptions.(expiry := Some(now + Unit(c[3]) * n)), now);
  }

  // ---------------------------------------------------------------
  // GET, MGET, STRLEN, APPEND
  // ---------------------------------------------------------------

  lemma GetAnswers(ks: Keyspace, c: Command, now: int)
    requires Calls(c, "GET") && |c| == 2
    ensures Exec(ks, c, now) == Effect(
      ks,
      if c[1] !in ks then Null
      else if ks[c[1]].value.Str? then BulkReply(ks[c[1]].value.text)
      else Failure(Store(WrongType)), [])
  {
    hide HandlerOf, Upper, Exec;
    StringNames();
    ReadEffect(ks, c, "GET", Get, now);
  }

  lemma {:induction false} GetAllAt(ks: Keyspace, keys: seq<string>, i: nat)
    requires i < |keys|
    ensures |GetAll(ks, keys)| == |keys|
    ensures GetAll(ks, keys)[i] ==
      if keys[i] in ks && ks[keys[i]].value.Str? then Some(ks[keys[i]].value.text) else None
  {
    var init := keys[..|keys| - 1];
    if i < |init| {
      GetAllAt(ks, init, i);
    } else if init != [] {
      GetAllAt(ks, init, 0);
    }
  }

  /** MGET answers key by key, in order. */
  lemma MGetAnswers(ks: Keyspace, c: Command, now: int)
    requires Calls(c, "MGET") && |c| >= 2
    ensures var e := Exec(ks, c, now);
      && e.ks == ks && e.log == [] && e.reply.Values? && |e.reply.found| == |c| - 1
      && forall i :: 1 <= i < |c| ==>
           e.reply.found[i - 1] ==
           (if c[i] in ks && ks[c[i]].value.Str? then Some(ks[c[i]].value.text) else None)
  {
    hide HandlerOf, Upper, Exec, GetAll;
    StringNames();
    ReadEffect(ks, c, "MGET", MGet, now);
    forall i | 1 <= i < |c| ensures |GetAll(ks, c[1..])| == |c| - 1 && GetAll(ks, c[1..])[i - 1] ==
      if c[i] in ks && ks[c[i]].value.Str? then Some(ks[c[i]].value.text) else None
    {
      GetAllAt(ks, c[1..], i - 1);
    }
    GetAllAt(ks, c[1..], 0);
  }

  lemma StrLenAnswers(ks: Keyspace, c: Command, now: int)
    requires Calls(c, "STRLEN") && |c| == 2
    ensures Exec(ks, c, now) == Effect(
      ks,
      if c[1] !in ks then Integer(0)
      else if ks[c[1]].value.Str? then Integer(|ks[c[1]].value.text|)
      else Failure(Store(WrongType)), [])
  {
    hide HandlerOf, Upper, Exec;
    StringNames();
    ReadEffect(ks, c, "STRLEN", StrLen, now);
  }

  /** APPEND adds at the end and keeps the deadline. */
  lemma AppendAdds(ks: Keyspace, c: Command, now: int)
    requires Calls(c, "APPEND") && |c| == 3
    ensures Exec(ks, c, now) ==
      if c[1] !in ks then Effect(ks[c[1] := Item(Str(c[2]), None)], Integer(|c[2]|), [c])
      else
        var item := ks[c[1]];
        if item.value.Str? then
          Effect(
            ks[c[1] := Item(Str(item.value.text + c[2]), item.deadline)],
            Integer(|item.value.text| + |c[2]|), [c])
        else Effect(ks, Failure(Store(WrongType)), [])
  {
    hide HandlerOf, Upper, Exec;
    StringNames();
    WriteEffect(ks, c, "APPEND", Append, now);
    assert "" + c[2] == c[2];
  }

  // ---------------------------------------------------------------
  // MSET
  // ---------------------------------------------------------------

  /** The keys (or fields) at every second position from `from` on. */
  ghost function Named(c: Command, from: nat): set<string> {
    set i | from <= i < |c| && (i - from) % 2 == 0 :: c[i]
  }

  /** Position `i` is the last one of its kind that names what stands there. */
  ghost predicate LastNamed(c: Command, from: nat, i: int) {
    && from <= i && i + 1 < |c| && (i - from) % 2 == 0
    && forall j :: i < j < |c| && (j - from) % 2 == 0 ==> c[j] != c[i]
  }

  lemma PairAt(c: Command, from: nat, j: nat)
    requires from <= |c| && (|c| - from) % 2 == 0 && j < (|c| - from) / 2
    ensures |PairsOf(c, from)| == (|c| - from) / 2
    ensures from + 2 * j + 1 < |c| && PairsOf(c, from)[j] == (c[from + 2 * j], c[from + 2 * j + 1])
  {
  }

  /** Pairs up to n: which keys they name, and what the last one of each says. */
  lemma {:induction false} StoreAllMeans(ks: Keyspace, pairs: seq<(string, string)>, key: string)
    ensures (exists j :: 0 <= j < |pairs| && pairs[j].0 == key) ==>
      exists j :: LastPair(pairs, j, key) && key in StoreAll(ks, pairs)
        && StoreAll(ks, pairs)[key] == Item(Str(pairs[j].1), None)
    ensures !(exists j :: 0 <= j < |pairs| && pairs[j].0 == key) ==>
      (key in StoreAll(ks, pairs) <==> key in ks) && (key in ks ==> StoreAll(ks, pairs)[key] == ks[key])
  {
    if pairs != [] {
      var init, last := pairs[..|pairs| - 1], pairs[|pairs| - 1];
      StoreAllMeans(ks, init, key);
      if last.0 == key {
        assert LastPair(pairs, |pairs| - 1, key);
      } else if j :| 0 <= j < |pairs| && pairs[j].0 == key {
        assert init[j].0 == key;
        var k :| LastPair(init, k, key)
          && key in StoreAll(ks, init) && StoreAll(ks, init)[key] == Item(Str(init[k].1), None);
        assert LastPair(pairs, k, key);
      }
    }
  }

  ghost predicate LastPair(pairs: seq<(string, string)>, j: int, key: string) {
    0 <= j < |pairs| && pairs[j].0 == key && forall k :: j < k < |pairs| ==> pairs[k].0 != key
  }

  /** A key among the pairs is a key at a position of its own in the command. */
  lemma PairsNamed(c: Command, from: nat, key: string)
    requires from <= |c| && (|c| - from) % 2 == 0
    ensures (exists j :: 0 <= j < |PairsOf(c, from)| && PairsOf(c, from)[j].0 == key) <==> key in Named(c, from)
  {
    hide PairsOf;
    var pairs := PairsOf(c, from);
    PairsLength(c, from);
    if j :| 0 <= j < |pairs| && pairs[j].0 == key {
      PairAt(c, from, j);
      assert c[from + 2 * j] in Named(c, from);
    }
    if key in Named(c, from) {
      var i :| from <= i < |c| && (i - from) % 2 == 0 && c[i] == key;
      PairAt(c, from, (i - from) / 2);
      assert pairs[(i - from) / 2].0 == key;
    }
  }

  /** The last pair with a key is where the command names it last. */
  lemma LastPairNamed(c: Command, from: nat, i: int, j: int)
    requires from <= |c| && (|c| - from) % 2 == 0 && LastNamed(c, from, i) && LastPair(PairsOf(c, from), j, c[i])
    ensures PairsOf(c, from)[j].1 == c[i + 1]
  {
    hide PairsOf;
    var own := (i - from) / 2;
    assert i == from + 2 * own && 2 * own + 2 <= |c| - from;
    PairAt(c, from, own);
    PairAt(c, from, j);
    assert own <= j;
    assert from + 2 * j <= i;
  }

  /**
   * Storing what the command says: the keys are the old ones and those named; each of these
   * holds what follows it where it is named last, without a deadline; all others are as
   * they were.
   */
  ghost predicate StoresNamed(before: Keyspace, c: Command, after: Keyspace) {
    && (forall k :: k in after <==> k in before || k in Named(c, 1))
    && (forall i :: LastNamed(c, 1, i) ==> c[i] in after && after[c[i]] == Item(Str(c[i + 1]), None))
    && (forall k :: k in before && k !in Named(c, 1) ==> k in after && after[k] == before[k])
  }

  lemma PairsStoreNamed(ks: Keyspace, c: Command)
    requires |c| >= 1 && (|c| - 1) % 2 == 0
    ensures StoresNamed(ks, c, StoreAll(ks, PairsOf(c, 1)))
  {
    hide PairsOf, StoreAll, LastNamed, Named;
    var pairs := PairsOf(c, 1);
    var after := StoreAll(ks, pairs);
    forall k ensures k in after <==> k in ks || k in Named(c, 1) {
      PairsNamed(c, 1, k);
      StoreAllMeans(ks, pairs, k);
    }
    forall i | LastNamed(c, 1, i) ensures 0 <= i && i + 1 < |c| &&
      c[i] in after && after[c[i]] == Item(Str(c[i + 1]), None)
    {
      IsNamed(c, 1, i);
      PairsNamed(c, 1, c[i]);
      StoreAllMeans(ks, pairs, c[i]);
      var j :| LastPair(pairs, j, c[i]) && c[i] in after && after[c[i]] == Item(Str(pairs[j].1), None);
      LastPairNamed(c, 1, i, j);
    }
    forall k | k in ks && k !in Named(c, 1) ensures k in after && after[k] == ks[k] {
      PairsNamed(c, 1, k);
      StoreAllMeans(ks, pairs, k);
    }
  }

  lemma IsNamed(c: Command, from: nat, i: int)
    requires LastNamed(c, from, i)
    ensures 0 <= i && i + 1 < |c| && c[i] in Named(c, from)
  {
  }

  lemma MSetStores(ks: Keyspace, c: Command, now: int)
    requires Calls(c, "MSET") && |c| >= 3 && |c| % 2 == 1
    ensures var e := Exec(ks, c, now); e.reply == Ok && e.log == [c] && StoresNamed(ks, c, e.ks)
  {
    hide HandlerOf, Upper, Exec, PairsOf, StoreAll, StoresNamed;
    StringNames();
    WriteEffect(ks, c, "MSET", MSet, now);
    PairsStoreNamed(ks, c);
  }

  lemma MSetEvenCount(ks: Keyspace, c: Command, now: int)
    requires Calls(c, "MSET") && |c| >= 3 && |c| % 2 == 0
    ensures WrongCount(ks, c, now)
  {
    hide HandlerOf, Upper, Exec;
    StringNames();
    WriteEffect(ks, c, "MSET", MSet, now);
  }

  // ---------------------------------------------------------------
  // Counters
  // ---------------------------------------------------------------

  /** The command adds `delta`. */
  predicate AddsTo(c: Command, delta: int) {
    || (Calls(c, "INCR") && |c| == 2 && delta == 1)
    || (Calls(c, "DECR") && |c| == 2 && delta == -1)
    || (Calls(c, "INCRBY") && |c| == 3 && IsInt64(delta) && c[2] == IntToText(delta))
    || (Calls(c, "DECRBY") && |c| == 3 && IsInt64(-delta) && -delta != INT64_MIN && c[2] == IntToText(-delta))
  }

  lemma OneStep(ks: Keyspace, c: Command, now: int)
    requires |c| == 2
    ensures Calls(c, "INCR") ==> Exec(ks, c, now) == PerformUpdate(ks, c[1], Increment(1), c)
    ensures Calls(c, "DECR") ==> Exec(ks, c, now) == PerformUpdate(ks, c[1], Increment(-1), c)
  {
    hide HandlerOf, Upper, Exec, PerformUpdate;
    CounterNames();
    if Calls(c, "INCR") {
      WriteEffect(ks, c, "INCR", Incr, now);
    } else if Calls(c, "DECR") {
      WriteEffect(ks, c, "DECR", Decr, now);
    }
  }

  lemma ManySteps(ks: Keyspace, c: Command, n: int, now: int)
    requires |c| == 3 && IsInt64(n) && c[2] == IntToText(n)
    ensures Calls(c, "INCRBY") ==> Exec(ks, c, now) == PerformUpdate(ks, c[1], Increment(n), c)
    ensures Calls(c, "DECRBY") && n != INT64_MIN ==> Exec(ks, c, now) == PerformUpdate(ks, c[1], Increment(-n), c)
  {
    hide HandlerOf, Upper, Exec, PerformUpdate, ParseInteger, IntToText;
    CounterNames();
    IntegerRoundTrip(n);
    if Calls(c, "INCRBY") {
      WriteEffect(ks, c, "INCRBY", IncrBy, now);
    } else if Calls(c, "DECRBY") {
      WriteEffect(ks, c, "DECRBY", DecrBy, now);
    }
  }

  lemma CounterPlan(ks: Keyspace, c: Command, delta: int, now: int)
    requires AddsTo(c, delta)
    ensures |c| >= 2 && Exec(ks, c, now) == PerformUpdate(ks, c[1], Increment(delta), c)
  {
    hide HandlerOf, Upper, Exec, PerformUpdate, IntToText;
    if |c| == 2 {
      OneStep(ks, c, now);
    } else if Calls(c, "INCRBY") {
      ManySteps(ks, c, delta, now);
    } else {
      ManySteps(ks, c, -delta, now);
    }
  }

  /** Counting up or down from n, or from zero for a missing key; the deadline stays. */
  lemma CounterAdds(ks: Keyspace, c: Command, delta: int, n: int, now: int)
    requires AddsTo(c, delta) && IsInt64(n) && |c| >= 2
    requires if c[1] in ks then ks[c[1]].value == Str(IntToText(n)) else n == 0
    ensures Exec(ks, c, now) ==
      if IsInt64(n + delta) then
        Effect(
          ks[c[1] := Item(Str(IntToText(n + delta)), if c[1] in ks then ks[c[1]].deadline else None)],
          Integer(n + delta), [c])
      else Effect(ks, Failure(Store(IncrementOverflow)), [])
  {
    hide Exec, Upper, ParseInteger, IntToText, AddsTo;
    CounterPlan(ks, c, delta, now);
    IntegerRoundTrip(n);
    assert IntToText(0) == "0" by {
      ZeroText();
    }
  }

  lemma ZeroText()
    ensures IntToText(0) == "0"
  {
  }

  lemma CounterRefuses(ks: Keyspace, c: Command, delta: int, now: int)
    requires AddsTo(c, delta) && |c| >= 2 && c[1] in ks
    ensures !ks[c[1]].value.Str? ==> Exec(ks, c, now) == Effect(ks, Failure(Store(WrongType)), [])
    ensures ks[c[1]].value.Str? && ParseInteger(ks[c[1]].value.text).None? ==>
      Exec(ks, c, now) == Effect(ks, Failure(Store(NotInteger)), [])
  {
    hide Exec, Upper, ParseInteger, IntToText, AddsTo;
    CounterPlan(ks, c, delta, now);
  }

  /** The amounts that INCRBY and DECRBY do not take. */
  lemma CounterBadAmount(ks: Keyspace, c: Command, now: int)
    requires |c| == 3 && (Calls(c, "INCRBY") || Calls(c, "DECRBY"))
    ensures ParseInteger(c[2]).None? ==> Exec(ks, c, now) == Effect(ks, Failure(BadInteger), [])
    ensures Calls(c, "DECRBY") && c[2] == IntToText(INT64_MIN) ==>
      Exec(ks, c, now) == Effect(ks, Failure(DecrementOverflow), [])
  {
    hide HandlerOf, Upper, Exec, ParseInteger, IntToText;
    CounterNames();
    IntegerRoundTrip(INT64_MIN);
    if Calls(c, "INCRBY") {
      WriteEffect(ks, c, "INCRBY", IncrBy, now);
    } else {
      WriteEffect(ks, c, "DECRBY", DecrBy, now);
    }
  }
}
