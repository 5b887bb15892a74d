/** What the list commands do and answer, element by element. */
module ListLaws {
  import opened Text
  import opened Values
  import opened Keyspace
  import opened Resp
  import opened CommandSpec
  import opened Names

  /** The list under a key, or the empty list if the key is missing. */
  function ElementsAt(ks: Keyspace, key: string): seq<string>
    requires key in ks ==> ks[key].value.List?
  {
    if key in ks then ks[key].value.elements else []
  }

  function DeadlineAt(ks: Keyspace, key: string): Option<int> {
    if key in ks then ks[key].deadline else None
  }

  /** RPUSH puts the arguments after the list, in order. */
  predicate PushedRight(before: seq<string>, c: Command, after: seq<string>) {
    |c| >= 2 && after == before + c[2..]
  }

  /** LPUSH puts the arguments before the list, the last one first. */
  predicate PushedLeft(before: seq<string>, c: Command, after: seq<string>) {
    && |c| >= 2 && |after| == |c| - 2 + |before|
    && (forall i :: 0 <= i < |c| - 2 ==> after[i] == c[|c| - 1 - i])
    && (forall i :: 0 <= i < |before| ==> after[|c| - 2 + i] == before[i])
  }

  lemma PushedInOrder(before: seq<string>, c: Command)
    requires |c| >= 2
    ensures PushedRight(before, c, PushAll(before, c[2..], Right))
    ensures PushedLeft(before, c, PushAll(before, c[2..], Left))
  {
    hide PushAll;
    var right, left := PushAll(before, c[2..], Right), PushAll(before, c[2..], Left);
    PushAllLength(before, c[2..], Right);
    PushAllLength(before, c[2..], Left);
    forall i | 0 <= i < |right| ensures right[i] == (before + c[2..])[i] {
      PushAllOrder(before, c[2..], Right, i);
    }
    forall i | 0 <= i < |left|
      ensures left[i] == if i < |c| - 2 then c[|c| - 1 - i] else before[i - (|c| - 2)]
    {
      PushAllOrder(before, c[2..], Left, i);
    }
  }

  /** A push, whatever the side. */
  lemma PushEffect(ks: Keyspace, key: string, values: seq<string>, side: Side, c: Command)
    ensures key in ks && !ks[key].value.List? ==>
      PerformUpdate(ks, key, PushValues(values, side), c) == Effect(ks, Failure(Store(WrongType)), [])
    ensures (key in ks ==> ks[key].value.List?) ==>
      var after := PushAll(ElementsAt(ks, key), values, side);
      PerformUpdate(ks, key, PushValues(values, side), c) ==
        Effect(ks[key := Item(List(after), DeadlineAt(ks, key))], Integer(|after|), [c])
  {
    hide PushAll;
  }

  /** Pushing: the new list, its length as the answer, the deadline kept, the command logged. */
  lemma RPushAdds(ks: Keyspace, c: Command, now: int) returns (after: seq<string>)
    requires Calls(c, "RPUSH") && |c| >= 3 && (c[1] in ks ==> ks[c[1]].value.List?)
    ensures Exec(ks, c, now) ==
      Effect(ks[c[1] := Item(List(after), DeadlineAt(ks, c[1]))], Integer(|after|), [c])
    ensures PushedRight(ElementsAt(ks, c[1]), c, after)
  {
    hide HandlerOf, Upper, Exec, PushAll, PushedLeft, PushedRight, PerformUpdate;
    ListNames();
    PushedInOrder(ElementsAt(ks, c[1]), c);
    UpdateEffect(ks, c, "RPUSH", RPush, now);
    PushEffect(ks, c[1], c[2..], Right, c);
    after := PushAll(ElementsAt(ks, c[1]), c[2..], Right);
  }

  lemma LPushAdds(ks: Keyspace, c: Command, now: int) returns (after: seq<string>)
    requires Calls(c, "LPUSH") && |c| >= 3 && (c[1] in ks ==> ks[c[1]].value.List?)
    ensures Exec(ks, c, now) ==
      Effect(ks[c[1] := Item(List(after), DeadlineAt(ks, c[1]))], Integer(|after|), [c])
    ensures PushedLeft(ElementsAt(ks, c[1]), c, after)
  {
    hide HandlerOf, Upper, Exec, PushAll, PushedLeft, PushedRight, PerformUpdate;
    ListNames();
    PushedInOrder(ElementsAt(ks, c[1]), c);
    UpdateEffect(ks, c, "LPUSH", LPush, now);
    PushEffect(ks, c[1], c[2..], Left, c);
    after := PushAll(ElementsAt(ks, c[1]), c[2..], Left);
  }

  lemma PushWrongType(ks: Keyspace, c: Command, now: int)
    requires (Calls(c, "LPUSH") || Calls(c, "RPUSH")) && |c| >= 3 && c[1] in ks && !ks[c[1]].value.List?
    ensures Exec(ks, c, now) == Effect(ks, Failure(Store(WrongType)), [])
  {
    hide HandlerOf, Upper, Exec, PerformUpdate;
    ListNames();
    PushEffect(ks, c[1], c[2..], Left, c);
    PushEffect(ks, c[1], c[2..], Right, c);
    if Calls(c, "LPUSH") {
      UpdateEffect(ks, c, "LPUSH", LPush, now);
    } else {
      UpdateEffect(ks, c, "RPUSH", RPush, now);
    }
  }

  /** What is left of a list that loses an element, and what becomes of its key. */
  ghost function Shortened(ks: Keyspace, key: string, rest: seq<string>): Keyspace
    requires key in ks
  {
    if rest == [] then ks - {key} else ks[key := Item(List(rest), ks[key].deadline)]
  }

  lemma PopEffect(ks: Keyspace, key: string, side: Side, c: Command)
    ensures key !in ks ==> PerformUpdate(ks, key, PopValue(side), c) == Effect(ks, Null, [])
    ensures key in ks && !ks[key].value.List? ==>
      PerformUpdate(ks, key, PopValue(side), c) == Effect(ks, Failure(Store(WrongType)), [])
  {
    assert key !in ks ==> ks - {key} == ks;
  }

  /** LPOP takes the first element, and the key with the last one left. */
  lemma LPopTakes(ks: Keyspace, c: Command, element: string, rest: seq<string>, now: int)
    requires Calls(c, "LPOP") && |c| == 2 && c[1] in ks && ks[c[1]].value == List([element] + rest)
    ensures Exec(ks, c, now) == Effect(Shortened(ks, c[1], rest), BulkReply(element), [c])
  {
    hide HandlerOf, Upper, Exec;
    ListNames();
    UpdateEffect(ks, c, "LPOP", LPop, now);
    assert ([element] + rest)[1..] == rest;
  }

  /** RPOP takes the last one. */
  lemma RPopTakes(ks: Keyspace, c: Command, element: string, rest: seq<string>, now: int)
    requires Calls(c, "RPOP") && |c| == 2 && c[1] in ks && ks[c[1]].value == List(rest + [element])
    ensures Exec(ks, c, now) == Effect(Shortened(ks, c[1], rest), BulkReply(element), [c])
  {
    hide HandlerOf, Upper, Exec;
    ListNames();
    UpdateEffect(ks, c, "RPOP", RPop, now);
    assert (rest + [element])[..|rest|] == rest;
  }

  lemma PopNothing(ks: Keyspace, c: Command, now: int)
    requires (Calls(c, "LPOP") || Calls(c, "RPOP")) && |c| == 2
    ensures c[1] !in ks ==> Exec(ks, c, now) == Effect(ks, Null, [])
    ensures c[1] in ks && !ks[c[1]].value.List? ==> Exec(ks, c, now) == Effect(ks, Failure(Store(WrongType)), [])
  {
    hide HandlerOf, Upper, Exec, PerformUpdate;
    ListNames();
    PopEffect(ks, c[1], Left, c);
    PopEffect(ks, c[1], Right, c);
    if Calls(c, "LPOP") {
      UpdateEffect(ks, c, "LPOP", LPop, now);
    } else {
      UpdateEffect(ks, c, "RPOP", RPop, now);
    }
  }

  // ---------------------------------------------------------------
  // LRANGE, LINDEX, LLEN
  // ---------------------------------------------------------------

  /** The position that an index means in a list of n: from the head, or from the tail if negative. */
  function Position(index: int, n: nat): int {
    if index >= 0 then index else n + index
  }

  /** LRANGE answers exactly the elements from one position to the other, both included, in order. */
  lemma RangeAnswers(ks: Keyspace, c: Command, start: int, stop: int, now: int) returns (r: seq<string>)
    requires Calls(c, "LRANGE") && |c| == 4 && c[1] in ks && ks[c[1]].value.List?
    requires IsInt64(start) && IsInt64(stop) && c[2] == IntToText(start) && c[3] == IntToText(stop)
    ensures Exec(ks, c, now) == Effect(ks, Strings(r), [])
    ensures var elements := ks[c[1]].value.elements;
      var last := Position(stop, |elements|);
      var first := if Position(start, |elements|) < 0 then 0 else Position(start, |elements|);
      && (forall j :: 0 <= j < |r| ==> first + j < |elements| && first + j <= last && r[j] == elements[first + j])
      && (forall i :: first <= i < |elements| && i <= last ==> i - first < |r| && elements[i] == r[i - first])
  {
    hide HandlerOf, Upper, Exec, ParseInteger, IntToText;
    ListNames();
    ReadEffect(ks, c, "LRANGE", LRange, now);
    IntegerRoundTrip(start);
    IntegerRoundTrip(stop);
    r := Slice(ks[c[1]].value.elements, start, stop);
  }

  lemma RangeOfNothing(ks: Keyspace, c: Command, start: int, stop: int, now: int)
    requires Calls(c, "LRANGE") && |c| == 4
    requires IsInt64(start) && IsInt64(stop) && c[2] == IntToText(start) && c[3] == IntToText(stop)
    ensures c[1] !in ks ==> Exec(ks, c, now) == Effect(ks, Strings([]), [])
    ensures c[1] in ks && !ks[c[1]].value.List? ==> Exec(ks, c, now) == Effect(ks, Failure(Store(WrongType)), [])
  {
    hide HandlerOf, Upper, Exec, ParseInteger, IntToText;
    ListNames();
    ReadEffect(ks, c, "LRANGE", LRange, now);
    IntegerRoundTrip(start);
    IntegerRoundTrip(stop);
  }

  /** LINDEX answers the element at the position, if there is one. */
  lemma IndexAnswers(ks: Keyspace, c: Command, index: int, now: int)
    requires Calls(c, "LINDEX") && |c| == 3 && IsInt64(index) && c[2] == IntToText(index)
    ensures Exec(ks, c, now) == Effect(
      ks,
      if c[1] !in ks then Null
      else if !ks[c[1]].value.List? then Failure(Store(WrongType))
      else
        var elements := ks[c[1]].value.elements;
        var at := Position(index, |elements|);
        if 0 <= at < |elements| then BulkReply(elements[at]) else Null, [])
  {
    hide HandlerOf, Upper, Exec, ParseInteger, IntToText;
    ListNames();
    ReadEffect(ks, c, "LINDEX", LIndex, now);
    IntegerRoundTrip(index);
  }

  lemma BadPositions(ks: Keyspace, c: Command, now: int)
    ensures Calls(c, "LINDEX") && |c| == 3 && ParseInteger(c[2]).None? ==>
      Exec(ks, c, now) == Effect(ks, Failure(BadInteger), [])
    ensures Calls(c, "LRANGE") && |c| == 4 && (ParseInteger(c[2]).None? || ParseInteger(c[3]).None?) ==>
      Exec(ks, c, now) == Effect(ks, Failure(BadInteger), [])
  {
    hide HandlerOf, Upper, Exec, ParseInteger;
    ListNames();
    if Calls(c, "LINDEX") && |c| == 3 {
      ReadEffect(ks, c, "LINDEX", LIndex, now);
    } else if Calls(c, "LRANGE") && |c| == 4 {
      ReadEffect(ks, c, "LRANGE", LRange, now);
    }
  }

  lemma LengthAnswers(ks: Keyspace, c: Command, now: int)
    requires Calls(c, "LLEN") && |c| == 2
    ensures Exec(ks, c, now) == Effect(
      ks,
      if c[1] !in ks then Integer(0)
      else if ks[c[1]].value.List? then Integer(|ks[c[1]].value.elements|)
      else Failure(Store(WrongType)), [])
  {
    hide HandlerOf, Upper, Exec;
    ListNames();
    ReadEffect(ks, c, "LLEN", LLen, now);
  }
}
