/** The four kinds of value and what they cost in the store's memory estimate. */
module Values {
  datatype Value =
    | Str(text: string)
    | List(elements: seq<string>)
    | Hash(fields: map<string, string>)
    | Set(members: set<string>)

  datatype Side = Left | Right

  datatype EvictionPolicy = NoEviction | AllKeysLru

  const ENTRY_OVERHEAD: nat := 96
  const ELEMENT_OVERHEAD: nat := 32

  /** Empty lists, hashes and sets are never kept. */
  predicate Proper(v: Value) {
    match v
    case Str(_) => true
    case List(elements) => elements != []
    case Hash(fields) => fields != map[]
    case Set(members) => members != {}
  }

  // ---------------------------------------------------------------
  // Memory
  // ---------------------------------------------------------------

  function ElementCost(element: string): nat {
    |element| + ELEMENT_OVERHEAD
  }

  ghost function ListCost(elements: seq<string>): nat {
    if elements == [] then 0 else ListCost(elements[..|elements| - 1]) + ElementCost(elements[|elements| - 1])
  }

  ghost function SetCost(members: set<string>): nat {
    if members == {} then 0
    else var m :| m in members; ElementCost(m) + SetCost(members - {m})
  }

  ghost function HashCost(fields: map<string, string>): nat {
    if fields == map[] then 0
    else var f :| f in fields; ElementCost(f) + |fields[f]| + HashCost(fields - {f})
  }

  ghost function Payload(v: Value): nat {
    match v
    case Str(text) => |text|
    case List(elements) => ListCost(elements)
    case Hash(fields) => HashCost(fields)
    case Set(members) => SetCost(members)
  }

  /** What one entry adds to the memory estimate. */
  ghost function EntryCost(key: string, v: Value): nat {
    ENTRY_OVERHEAD + |key| + Payload(v)
  }

  lemma ListCostPushBack(elements: seq<string>, e: string)
    ensures ListCost(elements + [e]) == ListCost(elements) + ElementCost(e)
  {
    assert (elements + [e])[..|elements|] == elements;
  }

  lemma {:induction false} ListCostPushFront(elements: seq<string>, e: string)
    ensures ListCost([e] + elements) == ListCost(elements) + ElementCost(e)
  {
    var l := [e] + elements;
    if elements == [] {
      assert l == [] + [e];
      ListCostPushBack([], e);
    } else {
      assert l[..|l| - 1] == [e] + elements[..|elements| - 1];
      ListCostPushFront(elements[..|elements| - 1], e);
    }
  }

  /** The set cost does not depend on the order of iteration. */
  lemma {:induction false} SetCostOf(members: set<string>, x: string)
    requires x in members
    ensures SetCost(members) == ElementCost(x) + SetCost(members - {x})
  {
    var m :| m in members && SetCost(members) == ElementCost(m) + SetCost(members - {m});
    if m != x {
      SetCostOf(members - {m}, x);
      SetCostOf(members - {x}, m);
      assert members - {m} - {x} == members - {x} - {m};
    }
  }

  lemma {:induction false} HashCostOf(fields: map<string, string>, x: string)
    requires x in fields
    ensures HashCost(fields) == ElementCost(x) + |fields[x]| + HashCost(fields - {x})
    decreases |fields|
  {
    var f :| f in fields && HashCost(fields) == ElementCost(f) + |fields[f]| + HashCost(fields - {f});
    if f != x {
      assert fields.Keys == (fields - {f}).Keys + {f} && fields.Keys == (fields - {x}).Keys + {x};
      HashCostOf(fields - {f}, x);
      HashCostOf(fields - {x}, f);
      assert fields - {f} - {x} == fields - {x} - {f};
    }
  }

  lemma SetCostAdd(members: set<string>, x: string)
    requires x !in members
    ensures SetCost(members + {x}) == SetCost(members) + ElementCost(x)
  {
    SetCostOf(members + {x}, x);
    assert members + {x} - {x} == members;
  }

  lemma HashCostPut(fields: map<string, string>, f: string, value: string)
    ensures HashCost(fields[f := value]) ==
            HashCost(fields) + |value| + (if f in fields then -|fields[f]| else ElementCost(f))
  {
    HashCostOf(fields[f := value], f);
    if f in fields {
      HashCostOf(fields, f);
      assert fields[f := value] - {f} == fields - {f};
    } else {
      assert fields[f := value] - {f} == fields;
    }
  }

  /** `payloadMemory`: the source visits a container's elements in whatever order it stores them. */
  method PayloadMemory(value: Value) returns (total: nat)
    ensures total == Payload(value)
  {
    match value
    case Str(text) =>
      return |text|;
    case List(elements) =>
      total := 0;
      for i := 0 to |elements|
        invariant total == ListCost(elements[..i])
      {
        assert elements[..i + 1] == elements[..i] + [elements[i]];
        ListCostPushBack(elements[..i], elements[i]);
        total := total + ElementCost(elements[i]);
      }
      assert elements[..|elements|] == elements;
    case Hash(fields) =>
      total := 0;
      var rest := fields;
      while rest != map[]
        invariant rest.Keys <= fields.Keys
        invariant total + HashCost(rest) == HashCost(fields)
        decreases |rest|
      {
        var f :| f in rest;
        HashCostOf(rest, f);
        total := total + ElementCost(f) + |rest[f]|;
        assert rest.Keys == (rest - {f}).Keys + {f};
        rest := rest - {f};
      }
    case Set(members) =>
      total := 0;
      var rest := members;
      while rest != {}
        invariant total + SetCost(rest) == SetCost(members)
        decreases |rest|
      {
        var m :| m in rest;
        SetCostOf(rest, m);
        total := total + ElementCost(m);
        rest := rest - {m};
      }
  }
}
