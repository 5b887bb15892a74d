/**
 * The store as its clients see it: a plain map from keys to values and deadlines. Expiry
 * is only a matter of looking at the map at a time; nothing is ever removed for being old.
 */
module Keyspace {
  import opened Text
  import opened Values

  datatype Item = Item(value: Value, deadline: Option<int>) {
    predicate LiveAt(now: int) {
      deadline.None? || now < deadline.value
    }
  }

  type Keyspace = map<string, Item>

  /** The unexpired part of a keyspace at a time. */
  function Live(ks: Keyspace, now: int): Keyspace {
    map k | k in ks && ks[k].LiveAt(now) :: ks[k]
  }

  lemma LiveKeys(ks: Keyspace, now: int)
    ensures forall k :: k in Live(ks, now) <==> k in ks && ks[k].LiveAt(now)
    ensures forall k :: k in Live(ks, now) ==> Live(ks, now)[k] == ks[k]
  {
  }

  /** Looking later forgets more: an earlier look in between changes nothing. */
  lemma LiveTwice(ks: Keyspace, now: int, later: int)
    requires now <= later
    ensures Live(Live(ks, now), later) == Live(ks, later)
  {
  }

  /** Removing a key that has expired is not visible. */
  lemma LiveDropsExpired(ks: Keyspace, key: string, now: int)
    requires key !in ks || !ks[key].LiveAt(now)
    ensures Live(ks - {key}, now) == Live(ks, now)
  {
  }

  lemma LivePut(ks: Keyspace, key: string, item: Item, now: int)
    requires item.LiveAt(now)
    ensures Live(ks[key := item], now) == Live(ks, now)[key := item]
  {
  }

  lemma PutTwice(ks: Keyspace, key: string, a: Item, b: Item)
    ensures ks[key := a][key := b] == ks[key := b]
  {
  }

  lemma LiveMinus(ks: Keyspace, key: string, now: int)
    ensures Live(ks - {key}, now) == Live(ks, now) - {key}
  {
  }

  lemma LiveMinusAll(ks: Keyspace, keys: set<string>, now: int)
    ensures Live(ks - keys, now) == Live(ks, now) - keys
  {
  }

  // ---------------------------------------------------------------
  // Operations that change one value in place
  // ---------------------------------------------------------------

  datatype Modifier =
    | Increment(delta: int)
    | AppendText(text: string)
    | PushValues(values: seq<string>, side: Side)
    | PopValue(end: Side)
    | PutFields(pairs: seq<(string, string)>)
    | RemoveFields(names: seq<string>)
    | AddMembers(added: seq<string>)
    | RemoveMembers(removed: seq<string>)

  datatype DbError = WrongType | NotInteger | IncrementOverflow

  /** A C++ call that returns a value or throws one of the store's exceptions. */
  datatype Result<T> = Returned(value: T) | Raised(error: DbError)

  datatype Answer = Number(n: int) | Popped(value: Option<string>)

  /** A rejected operation, or the new value (None when nothing is left) and the answer. */
  datatype Modification = Rejected(error: DbError) | Accepted(value: Option<Value>, answer: Answer)

  function ToSet(names: seq<string>): set<string> {
    set n | n in names
  }

  /** Pushing one after the other. */
  function PushAll(elements: seq<string>, values: seq<string>, side: Side): seq<string> {
    if values == [] then elements
    else
      var sofar := PushAll(elements, values[..|values| - 1], side);
      var value := values[|values| - 1];
      if side.Left? then [value] + sofar else sofar + [value]
  }

  /** Later pairs win. */
  function PutAll(fields: map<string, string>, pairs: seq<(string, string)>): map<string, string> {
    if pairs == [] then fields
    else PutAll(fields, pairs[..|pairs| - 1])[pairs[|pairs| - 1].0 := pairs[|pairs| - 1].1]
  }

  function IncrementText(text: string, delta: int): Modification {
    match ParseInteger(text)
    case None => Rejected(NotInteger)
    case Some(current) =>
      var sum := current + delta;
      if IsInt64(sum) then Accepted(Some(Str(IntToText(sum))), Number(sum)) else Rejected(IncrementOverflow)
  }

  function PopFrom(elements: seq<string>, side: Side): (r: (string, seq<string>))
    requires elements != []
    ensures elements == if side.Left? then [r.0] + r.1 else r.1 + [r.0]
  {
    if side.Left? then (elements[0], elements[1..]) else (elements[|elements| - 1], elements[..|elements| - 1])
  }

  /** What a present value becomes. */
  function Change(v: Value, m: Modifier): Modification {
    match m
    case Increment(delta) =>
      if v.Str? then IncrementText(v.text, delta) else Rejected(WrongType)
    case AppendText(text) =>
      if v.Str? then Accepted(Some(Str(v.text + text)), Number(|v.text| + |text|)) else Rejected(WrongType)
    case PushValues(values, side) =>
      if v.List? then
        var elements := PushAll(v.elements, values, side);
        Accepted(Some(List(elements)), Number(|elements|))
      else Rejected(WrongType)
    case PopValue(side) =>
      if !v.List? then Rejected(WrongType)
      else if v.elements == [] then Accepted(Some(v), Popped(None))
      else
        var (value, rest) := PopFrom(v.elements, side);
        Accepted(if rest == [] then None else Some(List(rest)), Popped(Some(value)))
    case PutFields(pairs) =>
      if v.Hash? then
        var fields := PutAll(v.fields, pairs);
        Accepted(Some(Hash(fields)), Number(|fields| - |v.fields|))
      else Rejected(WrongType)
    case RemoveFields(names) =>
      if v.Hash? then
        var fields := v.fields - ToSet(names);
        Accepted(if fields == map[] then None else Some(Hash(fields)), Number(|v.fields| - |fields|))
      else Rejected(WrongType)
    case AddMembers(members) =>
      if v.Set? then
        var all := v.members + ToSet(members);
        Accepted(Some(Set(all)), Number(|all| - |v.members|))
      else Rejected(WrongType)
    case RemoveMembers(members) =>
      if v.Set? then
        var left := v.members - ToSet(members);
        Accepted(if left == {} then None else Some(Set(left)), Number(|v.members| - |left|))
      else Rejected(WrongType)
  }

  /** Whether the operation creates a missing key. */
  predicate Creates(m: Modifier) {
    m.Increment? || m.AppendText? || m.PushValues? || m.PutFields? || m.AddMembers?
  }

  /** The value a missing key is created with before the operation runs. */
  function Blank(m: Modifier): Value
    requires Creates(m)
  {
    match m
    case Increment(_) => Str("0")
    case AppendText(_) => Str("")
    case PushValues(_, _) => List([])
    case PutFields(_) => Hash(map[])
    case AddMembers(_) => Set({})
  }

  function Modify(v: Option<Value>, m: Modifier): Modification {
    match v
    case Some(value) => Change(value, m)
    case None =>
      if Creates(m) then Change(Blank(m), m)
      else if m.PopValue? then Accepted(None, Popped(None))
      else Accepted(None, Number(0))
  }

  /** A modifier whose numbers are 64-bit, as the handlers pass them. */
  predicate Sized(m: Modifier) {
    m.Increment? ==> IsInt64(m.delta)
  }

  /** Creating never fails: no error can follow the creation of a key. */
  lemma CreationSucceeds(m: Modifier)
    requires Creates(m) && Sized(m)
    ensures Modify(None, m).Accepted? && Modify(None, m).value.Some?
  {
    if m.Increment? {
      IntegerRoundTrip(0);
    }
  }

  /** Operations that do not create leave a missing key missing. */
  lemma MissingStaysMissing(m: Modifier)
    requires !Creates(m)
    ensures Modify(None, m).Accepted? && Modify(None, m).value.None?
  {
  }

  /** Given something to add, an operation never leaves an empty aggregate behind. */
  predicate NonEmpty(m: Modifier) {
    && (m.PushValues? ==> m.values != [])
    && (m.PutFields? ==> m.pairs != [])
    && (m.AddMembers? ==> m.added != [])
  }

  lemma {:induction false} PushAllLength(elements: seq<string>, values: seq<string>, side: Side)
    ensures |PushAll(elements, values, side)| == |elements| + |values|
  {
    if values != [] {
      PushAllLength(elements, values[..|values| - 1], side);
    }
  }

  /** Pushing at the right appends the values; pushing at the left puts the last one first. */
  lemma {:induction false} PushAllOrder(elements: seq<string>, values: seq<string>, side: Side, i: nat)
    requires i < |elements| + |values|
    ensures |PushAll(elements, values, side)| == |elements| + |values|
    ensures side.Right? ==> PushAll(elements, values, side)[i] == (elements + values)[i]
    ensures side.Left? ==>
      PushAll(elements, values, side)[i] == (if i < |values| then values[|values| - 1 - i] else elements[i - |values|])
  {
    PushAllLength(elements, values, side);
    if values != [] {
      var init := values[..|values| - 1];
      PushAllLength(elements, init, side);
      if side.Right? && i < |elements| + |init| {
        PushAllOrder(elements, init, side, i);
      } else if side.Left? && i > 0 {
        PushAllOrder(elements, init, side, i - 1);
      }
    }
  }

  lemma ModifyKeepsProper(v: Option<Value>, m: Modifier)
    requires v.Some? ==> Proper(v.value)
    requires NonEmpty(m)
    requires Modify(v, m).Accepted? && Modify(v, m).value.Some?
    ensures Proper(Modify(v, m).value.value)
  {
    if m.PushValues? {
      PushAllLength(if v.Some? && v.value.List? then v.value.elements else [], m.values, m.side);
    } else if m.PutFields? {
      var fields := if v.Some? && v.value.Hash? then v.value.fields else map[];
      assert m.pairs[|m.pairs| - 1].0 in PutAll(fields, m.pairs);
    } else if m.AddMembers? {
      assert m.added[0] in ToSet(m.added);
    }
  }

  ghost function PairsCost(pairs: seq<(string, string)>): nat {
    if pairs == [] then 0
    else PairsCost(pairs[..|pairs| - 1]) + ElementCost(pairs[|pairs| - 1].0) + |pairs[|pairs| - 1].1|
  }

  /** How much an operation can add to the memory estimate, the creation of the key included. */
  ghost function Growth(key: string, m: Modifier): nat {
    match m
    case Increment(_) => ENTRY_OVERHEAD + |key| + 20
    case AppendText(text) => ENTRY_OVERHEAD + |key| + |text|
    case PushValues(values, _) => ENTRY_OVERHEAD + |key| + ListCost(values)
    case PutFields(pairs) => ENTRY_OVERHEAD + |key| + PairsCost(pairs)
    case AddMembers(members) => ENTRY_OVERHEAD + |key| + ListCost(members)
    case _ => 0
  }

  /** LRANGE: both ends may count from the tail, and are clipped to the list. */
  function Slice(elements: seq<string>, start: int, stop: int): seq<string> {
    var first := if start < 0 then start + |elements| else start;
    var last := if stop < 0 then stop + |elements| else stop;
    var from := if first < 0 then 0 else first;
    var to := if last > |elements| - 1 then |elements| - 1 else last;
    if from > to || from >= |elements| then [] else elements[from..to + 1]
  }

  function ElementAt(elements: seq<string>, index: int): Option<string> {
    var at := if index < 0 then index + |elements| else index;
    if at < 0 || at >= |elements| then None else Some(elements[at])
  }

  // ---------------------------------------------------------------
  // Operations on the whole keyspace
  // ---------------------------------------------------------------

  function ValueAt(ks: Keyspace, key: string): Option<Value> {
    if key in ks then Some(ks[key].value) else None
  }

  /** Puts a new value under a key; a key that was there keeps its deadline. */
  function Replace(ks: Keyspace, key: string, value: Option<Value>): Keyspace {
    match value
    case None => ks - {key}
    case Some(v) => ks[key := Item(v, if key in ks then ks[key].deadline else None)]
  }

  function StoreAll(ks: Keyspace, pairs: seq<(string, string)>): Keyspace {
    if pairs == [] then ks
    else
      StoreAll(ks, pairs[..|pairs| - 1])
        [pairs[|pairs| - 1].0 := Item(Str(pairs[|pairs| - 1].1), None)]
  }

  /** How many keys of a list are removed, each at most once. */
  function DeletedCount(ks: Keyspace, keys: seq<string>): nat {
    |ks.Keys * ToSet(keys)|
  }

  function PresentCount(ks: Keyspace, keys: seq<string>): nat {
    if keys == [] then 0
    else PresentCount(ks, keys[..|keys| - 1]) + if keys[|keys| - 1] in ks then 1 else 0
  }

  /** Removing nothing changes nothing. */
  lemma DeletedCountZero(ks: Keyspace, keys: seq<string>)
    requires DeletedCount(ks, keys) == 0
    ensures ks - ToSet(keys) == ks
  {
    assert ks.Keys * ToSet(keys) == {};
  }

  /** Every value in the keyspace is non-empty. */
  ghost predicate AllProper(ks: Keyspace) {
    forall k :: k in ks ==> Proper(ks[k].value)
  }

  /** A value that changed from one keyspace to the next as an operation says, and what was returned. */
  ghost predicate Did(before: Keyspace, key: string, m: Modifier, after: Keyspace, r: Result<Answer>) {
    match Modify(ValueAt(before, key), m)
    case Rejected(error) => r == Raised(error) && after == before
    case Accepted(value, answer) => r == Returned(answer) && after == Replace(before, key, value)
  }

  /** An operation that creates: it works on the value found, or on a blank one. */
  lemma DidCreating(before: Keyspace, key: string, m: Modifier, item: Item)
    requires Creates(m) && Sized(m)
    requires item == if key in before then before[key] else Item(Blank(m), None)
    ensures match Change(item.value, m)
            case Rejected(error) => Did(before, key, m, before[key := item], Raised(error))
            case Accepted(value, answer) =>
              value.Some? ==> Did(before, key, m, before[key := Item(value.value, item.deadline)], Returned(answer))
  {
    hide Change, Blank, Creates;
    if key !in before {
      CreationSucceeds(m);
    } else {
      assert before[key := before[key]] == before;
    }
  }

  /** An operation that does not create, on a key that is there. */
  lemma DidPresent(before: Keyspace, key: string, m: Modifier)
    requires key in before
    ensures match Change(before[key].value, m)
            case Rejected(error) => Did(before, key, m, before, Raised(error))
            case Accepted(value, answer) =>
              Did(before, key, m,
                  if value.Some? then before[key := Item(value.value, before[key].deadline)] else before - {key},
                  Returned(answer))
  {
    hide Change;
  }

  /** What popping and removing come to, once the key is known to be there. */
  lemma DidPop(before: Keyspace, key: string, elements: seq<string>, side: Side)
    requires key in before && before[key].value == List(elements) && elements != []
    ensures var (value, rest) := PopFrom(elements, side);
            Did(before, key, PopValue(side),
                if rest == [] then before - {key} else before[key := Item(List(rest), before[key].deadline)],
                Returned(Popped(Some(value))))
  {
    DidPresent(before, key, PopValue(side));
  }

  lemma DidRemoveFields(before: Keyspace, key: string, fields: map<string, string>, names: seq<string>)
    requires key in before && before[key].value == Hash(fields)
    ensures var left := fields - ToSet(names);
            Did(before, key, RemoveFields(names),
                if left == map[] then before - {key} else before[key := Item(Hash(left), before[key].deadline)],
                Returned(Number(|fields| - |left|)))
  {
    hide ToSet;
    DidPresent(before, key, RemoveFields(names));
  }

  lemma DidRemoveMembers(before: Keyspace, key: string, members: set<string>, removed: seq<string>)
    requires key in before && before[key].value == Set(members)
    ensures var left := members - ToSet(removed);
            Did(before, key, RemoveMembers(removed),
                if left == {} then before - {key} else before[key := Item(Set(left), before[key].deadline)],
                Returned(Number(|members| - |left|)))
  {
    DidPresent(before, key, RemoveMembers(removed));
  }

  lemma DidWrongType(before: Keyspace, key: string, m: Modifier)
    requires key in before
    requires m.PopValue? ==> !before[key].value.List?
    requires m.RemoveFields? ==> !before[key].value.Hash?
    requires m.RemoveMembers? ==> !before[key].value.Set?
    requires !Creates(m)
    ensures Did(before, key, m, before, Raised(WrongType))
  {
    DidPresent(before, key, m);
  }

  lemma DidMissing(before: Keyspace, key: string, m: Modifier)
    requires key !in before && !Creates(m)
    ensures Did(before, key, m, before, Returned(if m.PopValue? then Popped(None) else Number(0)))
  {
    assert before - {key} == before;
  }

  lemma MinusAfterPut(ks: Keyspace, key: string, item: Item)
    ensures ks[key := item] - {key} == ks - {key}
  {
  }

  /** The item an operation that creates works on. */
  ghost predicate StartsFrom(before: Keyspace, key: string, m: Modifier, item: Item) {
    Creates(m) && Sized(m) && item == if key in before then before[key] else Item(Blank(m), None)
  }

  lemma DidPush(before: Keyspace, key: string, item: Item, values: seq<string>, side: Side)
    requires StartsFrom(before, key, PushValues(values, side), item)
    ensures var m := PushValues(values, side);
            if item.value.List? then
              var elements := PushAll(item.value.elements, values, side);
              Did(before, key, m, before[key := Item(List(elements), item.deadline)], Returned(Number(|elements|)))
            else Did(before, key, m, before[key := item], Raised(WrongType))
  {
    hide Did;
    DidCreating(before, key, PushValues(values, side), item);
  }

  lemma DidPutFields(before: Keyspace, key: string, item: Item, pairs: seq<(string, string)>)
    requires StartsFrom(before, key, PutFields(pairs), item)
    ensures var m := PutFields(pairs);
            if item.value.Hash? then
              var fields := PutAll(item.value.fields, pairs);
              Did(before, key, m, before[key := Item(Hash(fields), item.deadline)],
                  Returned(Number(|fields| - |item.value.fields|)))
            else Did(before, key, m, before[key := item], Raised(WrongType))
  {
    hide Did;
    DidCreating(before, key, PutFields(pairs), item);
  }

  lemma DidAddMembers(before: Keyspace, key: string, item: Item, members: seq<string>)
    requires StartsFrom(before, key, AddMembers(members), item)
    ensures var m := AddMembers(members);
            if item.value.Set? then
              var all := item.value.members + ToSet(members);
              Did(before, key, m, before[key := Item(Set(all), item.deadline)],
                  Returned(Number(|all| - |item.value.members|)))
            else Did(before, key, m, before[key := item], Raised(WrongType))
  {
    hide Did;
    DidCreating(before, key, AddMembers(members), item);
  }
}
