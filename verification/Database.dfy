/**
 * The storage engine of src/database.cpp: a hash map of nodes, mirrored by a recency list
 * and by a vector of the nodes that have a deadline, with incremental memory accounting.
 */
module Storage {
  import opened Text
  import opened Values
  import opened Keyspace
  import Glob
  import Ordering

  const NO_EXPIRY: int := -1
  const NOT_VOLATILE: int := -1

  /** One entry of the hash map. Pointers and list iterators to it are references to this object. */
  class Node {
    const key: string
    var value: Value
    var expiresAtMs: int
    var memory: nat
    var volatileIndex: int
    /** When the node was last created or touched, on a clock that only counts such events. */
    ghost var stamp: nat

    constructor (key: string, value: Value, memory: nat, ghost stamp: nat)
      ensures this.key == key && this.value == value && this.memory == memory && this.stamp == stamp
      ensures expiresAtMs == NO_EXPIRY && volatileIndex == NOT_VOLATILE
    {
      this.key := key;
      this.value := value;
      this.memory := memory;
      this.stamp := stamp;
      expiresAtMs := NO_EXPIRY;
      volatileIndex := NOT_VOLATILE;
    }

    ghost function ToItem(): Item
      reads `value, `expiresAtMs
    {
      Item(value, if expiresAtMs == NO_EXPIRY then None else Some(expiresAtMs))
    }
  }

  // ---------------------------------------------------------------
  // Lists of nodes
  // ---------------------------------------------------------------

  /** The list without its first occurrence of a node. */
  function Without(nodes: seq<Node>, node: Node): seq<Node> {
    if nodes == [] then []
    else if nodes[0] == node then nodes[1..]
    else [nodes[0]] + Without(nodes[1..], node)
  }

  predicate Distinct(nodes: seq<Node>) {
    forall i, j :: 0 <= i < j < |nodes| ==> nodes[i] != nodes[j]
  }

  lemma {:induction false} WithoutAt(nodes: seq<Node>, i: nat)
    requires i < |nodes| && Distinct(nodes)
    ensures Without(nodes, nodes[i]) == nodes[..i] + nodes[i + 1..]
  {
    if i == 0 {
      assert nodes[..0] + nodes[1..] == nodes[1..];
    } else {
      WithoutAt(nodes[1..], i - 1);
      assert nodes[1..][i - 1] == nodes[i];
      assert [nodes[0]] + (nodes[1..][..i - 1] + nodes[1..][i..]) == nodes[..i] + nodes[i + 1..];
    }
  }

  lemma {:induction false} WithoutMember(nodes: seq<Node>, node: Node, n: Node)
    requires Distinct(nodes)
    ensures n in Without(nodes, node) <==> n in nodes && n != node
  {
    if nodes != [] {
      assert nodes == [nodes[0]] + nodes[1..];
      if nodes[0] == node {
        assert node !in nodes[1..];
      } else {
        WithoutMember(nodes[1..], node, n);
      }
    }
  }

  lemma WithoutMembers(nodes: seq<Node>, node: Node)
    requires Distinct(nodes)
    ensures forall i :: 0 <= i < |Without(nodes, node)| ==>
      Without(nodes, node)[i] in nodes && Without(nodes, node)[i] != node
    ensures forall i :: 0 <= i < |nodes| && nodes[i] != node ==> nodes[i] in Without(nodes, node)
  {
    var rest := Without(nodes, node);
    forall i | 0 <= i < |rest| ensures rest[i] in nodes && rest[i] != node {
      WithoutMember(nodes, node, rest[i]);
    }
    forall i | 0 <= i < |nodes| && nodes[i] != node ensures nodes[i] in rest {
      WithoutMember(nodes, node, nodes[i]);
    }
  }

  ghost function Sum(weights: seq<nat>): nat {
    if weights == [] then 0 else Sum(weights[..|weights| - 1]) + weights[|weights| - 1]
  }

  lemma {:induction false} SumAppend(a: seq<nat>, b: seq<nat>)
    ensures Sum(a + b) == Sum(a) + Sum(b)
  {
    if b == [] {
      assert a + b == a;
    } else {
      assert (a + b)[..|a + b| - 1] == a + b[..|b| - 1];
      SumAppend(a, b[..|b| - 1]);
    }
  }

  lemma SumOne(w: nat)
    ensures Sum([w]) == w
  {
    assert [w][..0] == [];
  }

  /** Taking one weight out of the list. */
  lemma SumRemove(weights: seq<nat>, i: nat)
    requires i < |weights|
    ensures Sum(weights[..i] + weights[i + 1..]) == Sum(weights) - weights[i]
  {
    hide Sum;
    var a, b := weights[..i], weights[i + 1..];
    assert weights == a + ([weights[i]] + b);
    SumAppend(a, [weights[i]] + b);
    SumAppend([weights[i]], b);
    SumOne(weights[i]);
    SumAppend(a, b);
  }

  lemma SumUpdate(weights: seq<nat>, i: nat, w: nat)
    requires i < |weights|
    ensures Sum(weights[i := w]) == Sum(weights) - weights[i] + w
  {
    hide Sum;
    var updated := weights[i := w];
    SumRemove(weights, i);
    SumRemove(updated, i);
    assert updated[..i] + updated[i + 1..] == weights[..i] + weights[i + 1..];
  }

  lemma SumPrepend(w: nat, weights: seq<nat>)
    ensures Sum([w] + weights) == w + Sum(weights)
  {
    SumAppend([w], weights);
    SumOne(w);
  }

  ghost function Weights(nodes: seq<Node>): (w: seq<nat>)
    reads nodes`memory
    ensures |w| == |nodes|
    ensures forall i :: 0 <= i < |nodes| ==> w[i] == nodes[i].memory
  {
    if nodes == [] then [] else Weights(nodes[..|nodes| - 1]) + [nodes[|nodes| - 1].memory]
  }

  ghost function KeysOf(nodes: seq<Node>): (r: seq<string>)
    ensures |r| == |nodes|
    ensures forall i :: 0 <= i < |nodes| ==> r[i] == nodes[i].key
  {
    seq(|nodes|, i requires 0 <= i < |nodes| => nodes[i].key)
  }

  /** A recency order without one key, and with that key made the most recently used. */
  function Others(order: seq<string>, key: string): seq<string> {
    if order == [] then []
    else if order[0] == key then Others(order[1..], key)
    else [order[0]] + Others(order[1..], key)
  }

  function Used(order: seq<string>, key: string): seq<string> {
    [key] + Others(order, key)
  }

  /** A recency order with only some of its keys, in the same order. */
  ghost function Kept(order: seq<string>, keys: set<string>): seq<string> {
    if order == [] then []
    else (if order[0] in keys then [order[0]] else []) + Kept(order[1..], keys)
  }

  lemma {:induction false} KeptAll(order: seq<string>, keys: set<string>)
    requires forall i :: 0 <= i < |order| ==> order[i] in keys
    ensures Kept(order, keys) == order
  {
    if order != [] {
      KeptAll(order[1..], keys);
    }
  }

  lemma {:induction false} KeptTwice(order: seq<string>, more: set<string>, keys: set<string>)
    requires keys <= more
    ensures Kept(Kept(order, more), keys) == Kept(order, keys)
  {
    if order != [] {
      var rest := Kept(order[1..], more);
      KeptTwice(order[1..], more, keys);
      assert ([order[0]] + rest)[1..] == rest;
      assert [] + rest == rest;
    }
  }

  /** Removing one key from the order is keeping the others. */
  lemma {:induction false} OthersKept(order: seq<string>, keys: set<string>, key: string)
    ensures Others(Kept(order, keys), key) == Kept(order, keys - {key})
  {
    if order != [] {
      var rest := Kept(order[1..], keys);
      OthersKept(order[1..], keys, key);
      assert ([order[0]] + rest)[1..] == rest;
      assert [] + rest == rest;
    }
  }

  lemma {:induction false} OthersAbsent(order: seq<string>, key: string)
    requires key !in order
    ensures Others(order, key) == order
  {
    if order != [] {
      OthersAbsent(order[1..], key);
    }
  }

  lemma {:induction false} OthersTwice(order: seq<string>, key: string)
    ensures Others(Others(order, key), key) == Others(order, key)
    ensures Used(Used(order, key), key) == Used(order, key)
    ensures Used(Others(order, key), key) == Used(order, key)
  {
    if order != [] {
      OthersTwice(order[1..], key);
    }
  }

  /** Taking a node out of a list takes its key out of the recency order. */
  lemma KeysWithout(data: map<string, Node>, lru: seq<Node>, node: Node)
    requires Mirrors(data, lru) && Distinct(lru) && node in lru
    ensures KeysOf(Without(lru, node)) == Others(KeysOf(lru), node.key)
  {
    KeysWithoutNode(lru, node);
  }

  lemma {:induction false} KeysWithoutNode(lru: seq<Node>, node: Node)
    requires Distinct(lru) && forall n :: n in lru && n.key == node.key ==> n == node
    ensures KeysOf(Without(lru, node)) == Others(KeysOf(lru), node.key)
  {
    if lru != [] {
      assert KeysOf(lru)[1..] == KeysOf(lru[1..]);
      if lru[0] == node {
        OthersAbsent(KeysOf(lru[1..]), node.key);
      } else {
        KeysWithoutNode(lru[1..], node);
      }
    }
  }

  lemma KeysFront(node: Node, rest: seq<Node>)
    ensures KeysOf([node] + rest) == [node.key] + KeysOf(rest)
  {
  }

  lemma TouchedOrder(data: map<string, Node>, lru: seq<Node>, node: Node)
    requires Mirrors(data, lru) && Distinct(lru) && node in lru
    ensures KeysOf([node] + Without(lru, node)) == Used(KeysOf(lru), node.key)
  {
    hide Mirrors, Distinct, Without, KeysOf, Others;
    KeysWithout(data, lru, node);
    KeysFront(node, Without(lru, node));
  }

  lemma KeysAbsent(data: map<string, Node>, lru: seq<Node>, key: string)
    requires Mirrors(data, lru) && key !in data
    ensures Others(KeysOf(lru), key) == KeysOf(lru)
  {
    OthersAbsent(KeysOf(lru), key);
  }

  // ---------------------------------------------------------------
  // How the three structures mirror each other
  // ---------------------------------------------------------------

  /** The map and the recency list hold the same nodes. */
  ghost predicate Mirrors(data: map<string, Node>, lru: seq<Node>) {
    && (forall k :: k in data ==> data[k].key == k && data[k] in lru)
    && (forall n :: n in lru ==> n.key in data && data[n.key] == n)
  }

  /** The recency list is in descending order of last use. */
  ghost predicate Ranked(lru: seq<Node>, tick: nat)
    reads lru`stamp
  {
    && (forall i, j :: 0 <= i < j < |lru| ==> lru[i].stamp > lru[j].stamp)
    && (forall i :: 0 <= i < |lru| ==> lru[i].stamp < tick)
  }

  /** A node is in the vector, at the place it remembers, exactly when it has a deadline. */
  ghost predicate Indexed(lru: seq<Node>, volatileKeys: seq<Node>)
    reads lru`volatileIndex, lru`expiresAtMs
  {
    && (forall i :: 0 <= i < |volatileKeys| ==> volatileKeys[i] in lru && volatileKeys[i].volatileIndex == i)
    && (forall n :: n in lru ==> (n.volatileIndex == NOT_VOLATILE <==> n.expiresAtMs == NO_EXPIRY))
    && (forall n :: n in lru && n.volatileIndex != NOT_VOLATILE ==>
          0 <= n.volatileIndex < |volatileKeys| && volatileKeys[n.volatileIndex] == n)
  }

  /** Each node's memory is what its key and value cost. */
  ghost predicate Charged(lru: seq<Node>)
    reads lru`memory, lru`value
  {
    forall n :: n in lru ==> n.memory == EntryCost(n.key, n.value)
  }

  lemma ChargedFront(node: Node, rest: seq<Node>)
    requires Charged(rest) && node.memory == EntryCost(node.key, node.value)
    ensures Charged([node] + rest)
  {
  }

  lemma RankedDistinct(lru: seq<Node>, tick: nat)
    requires Ranked(lru, tick)
    ensures Distinct(lru)
  {
  }

  lemma MirrorsWithout(data: map<string, Node>, lru: seq<Node>, node: Node)
    requires Mirrors(data, lru) && Distinct(lru) && node in lru
    ensures Mirrors(data - {node.key}, Without(lru, node))
  {
    hide Without, Distinct;
    var rest, left := Without(lru, node), data - {node.key};
    forall k | k in left ensures left[k].key == k && left[k] in rest {
      WithoutMember(lru, node, data[k]);
    }
    forall n | n in rest ensures n.key in left && left[n.key] == n {
      WithoutMember(lru, node, n);
      assert data[n.key] == n && data[node.key] == node;
    }
  }

  lemma MirrorsFront(data: map<string, Node>, lru: seq<Node>, node: Node)
    requires Mirrors(data, lru) && node.key !in data
    ensures Mirrors(data[node.key := node], [node] + lru)
  {
    assert forall n :: n in [node] + lru <==> n == node || n in lru;
  }

  lemma MirrorsSame(data: map<string, Node>, lru: seq<Node>, nodes: seq<Node>)
    requires Mirrors(data, lru)
    requires forall i :: 0 <= i < |lru| ==> lru[i] in nodes
    requires forall i :: 0 <= i < |nodes| ==> nodes[i] in lru
    ensures Mirrors(data, nodes)
  {
  }

  lemma IndexedSame(lru: seq<Node>, volatileKeys: seq<Node>, nodes: seq<Node>)
    requires Indexed(lru, volatileKeys)
    requires forall i :: 0 <= i < |lru| ==> lru[i] in nodes
    requires forall i :: 0 <= i < |nodes| ==> nodes[i] in lru
    ensures Indexed(nodes, volatileKeys)
  {
  }

  lemma IndexedFront(lru: seq<Node>, volatileKeys: seq<Node>, node: Node)
    requires Indexed(lru, volatileKeys)
    requires node.volatileIndex == NOT_VOLATILE && node.expiresAtMs == NO_EXPIRY
    ensures Indexed([node] + lru, volatileKeys)
  {
    assert forall n :: n in [node] + lru <==> n == node || n in lru;
  }

  lemma RankedWithout(lru: seq<Node>, tick: nat, node: Node)
    requires Ranked(lru, tick) && node in lru
    ensures Ranked(Without(lru, node), tick)
  {
    hide Without, Distinct;
    RankedDistinct(lru, tick);
    var k :| 0 <= k < |lru| && lru[k] == node;
    WithoutAt(lru, k);
    var rest := lru[..k] + lru[k + 1..];
    assert forall i :: 0 <= i < |rest| ==> rest[i] == lru[if i < k then i else i + 1];
  }

  lemma IndexedWithout(lru: seq<Node>, volatileKeys: seq<Node>, node: Node)
    requires Indexed(lru, volatileKeys) && Distinct(lru) && node in lru && node.volatileIndex == NOT_VOLATILE
    ensures Indexed(Without(lru, node), volatileKeys)
  {
    hide Without, Distinct;
    var rest := Without(lru, node);
    forall n | n in rest ensures n in lru {
      WithoutMember(lru, node, n);
    }
    forall i | 0 <= i < |volatileKeys| ensures volatileKeys[i] in rest {
      WithoutMember(lru, node, volatileKeys[i]);
    }
  }

  /** Taking a node out of the recency list makes it that much lighter. */
  lemma RemovedWeight(lru: seq<Node>, node: Node)
    requires Distinct(lru) && node in lru
    ensures Sum(Weights(Without(lru, node))) == Sum(Weights(lru)) - node.memory
    ensures Sum(Weights(lru)) >= node.memory
  {
    hide Sum, Without, Distinct;
    var i :| 0 <= i < |lru| && lru[i] == node;
    WithoutAt(lru, i);
    var w := Weights(lru);
    assert Weights(Without(lru, node)) == w[..i] + w[i + 1..];
    SumRemove(w, i);
  }

  /** A node put in front adds its own weight. */
  lemma FrontWeight(node: Node, rest: seq<Node>)
    ensures Sum(Weights([node] + rest)) == node.memory + Sum(Weights(rest))
  {
    hide Sum;
    assert Weights([node] + rest) == [node.memory] + Weights(rest);
    SumPrepend(node.memory, Weights(rest));
  }

  lemma RankedFront(node: Node, rest: seq<Node>, tick: nat)
    requires Ranked(rest, tick) && node.stamp == tick
    ensures Ranked([node] + rest, tick + 1)
  {
    var lru := [node] + rest;
    assert forall i :: 0 < i < |lru| ==> lru[i] == rest[i - 1];
  }

  lemma SameMembers(lru: seq<Node>, node: Node)
    requires Distinct(lru) && node in lru
    ensures forall i :: 0 <= i < |lru| ==> lru[i] in [node] + Without(lru, node)
    ensures forall i :: 0 <= i < |[node] + Without(lru, node)| ==> ([node] + Without(lru, node))[i] in lru
  {
    hide Without, Distinct;
    WithoutMembers(lru, node);
  }

  // ---------------------------------------------------------------
  // The database
  // ---------------------------------------------------------------

  class Database {
    var data: map<string, Node>
    /** Front is the most recently used node. */
    var lru: seq<Node>
    /** Nodes with a deadline, in no particular order. */
    var volatileKeys: seq<Node>
    var memoryUsed: nat
    var memoryLimit: nat
    var policy: EvictionPolicy
    var expiredKeys: nat
    var evictedKeys: nat
    var keyspaceHits: nat
    var keyspaceMisses: nat
    ghost var tick: nat

    ghost predicate Linked()
      reads `data, `lru, `volatileKeys, `memoryUsed, `tick, lru
    {
      Mirrors(data, lru) && Ranked(lru, tick) && Indexed(lru, volatileKeys) && memoryUsed == Sum(Weights(lru))
    }

    /** Each entry is charged for its overhead, its key and its payload. */
    ghost predicate Accounted()
      reads `lru, lru`memory, lru`value
    {
      Charged(lru)
    }

    ghost predicate Valid()
      reads `data, `lru, `volatileKeys, `memoryUsed, `tick, lru
    {
      Linked() && Accounted()
    }

    /** Everything physically stored, expired or not. */
    ghost function Contents(): Keyspace
      reads `data, data.Values`value, data.Values`expiresAtMs
    {
      map k | k in data :: data[k].ToItem()
    }

    /** What clients see at a time. */
    ghost function View(now: int): Keyspace
      reads `data, data.Values`value, data.Values`expiresAtMs
    {
      Live(Contents(), now)
    }

    /** Keys from most to least recently used. */
    ghost function Recency(): seq<string>
      reads `lru
    {
      KeysOf(lru)
    }

    constructor ()
      ensures Valid() && data == map[] && lru == [] && Contents() == map[]
      ensures memoryUsed == memoryLimit == 0 && policy == NoEviction
      ensures expiredKeys == evictedKeys == keyspaceHits == keyspaceMisses == 0
    {
      data, lru, volatileKeys := map[], [], [];
      memoryUsed, memoryLimit, policy := 0, 0, NoEviction;
      expiredKeys, evictedKeys, keyspaceHits, keyspaceMisses := 0, 0, 0, 0;
      tick := 0;
    }

    // -------------------------------------------------------------
    // Internal helpers
    // -------------------------------------------------------------

    /** Swap-and-pop, including the case where the node is itself the last one. */
    method ClearExpiry(node: Node)
      requires Indexed(lru, volatileKeys) && node in lru
      modifies `volatileKeys, lru`volatileIndex, node`expiresAtMs
      ensures Indexed(lru, volatileKeys)
      ensures node.expiresAtMs == NO_EXPIRY && node.volatileIndex == NOT_VOLATILE
      ensures |volatileKeys| == old(|volatileKeys|) - (if old(node.expiresAtMs) == NO_EXPIRY then 0 else 1)
      ensures forall i :: 0 <= i < |volatileKeys| ==> volatileKeys[i] in old(volatileKeys) && volatileKeys[i] != node
    {
      var index := node.volatileIndex;
      if index != NOT_VOLATILE {
        var last := volatileKeys[|volatileKeys| - 1];
        volatileKeys := volatileKeys[index := last];
        last.volatileIndex := index;
        volatileKeys := volatileKeys[..|volatileKeys| - 1];
        node.volatileIndex := NOT_VOLATILE;
      }
      node.expiresAtMs := NO_EXPIRY;
    }

    method SetExpiry(node: Node, unixTimeMs: int)
      requires Indexed(lru, volatileKeys) && node in lru && unixTimeMs != NO_EXPIRY
      modifies `volatileKeys, node`volatileIndex, node`expiresAtMs
      ensures Indexed(lru, volatileKeys)
      ensures node.expiresAtMs == unixTimeMs
      ensures |volatileKeys| == old(|volatileKeys|) + (if old(node.expiresAtMs) == NO_EXPIRY then 1 else 0)
    {
      if node.volatileIndex == NOT_VOLATILE {
        node.volatileIndex := |volatileKeys|;
        volatileKeys := volatileKeys + [node];
      }
      node.expiresAtMs := unixTimeMs;
    }

    method Erase(node: Node)
      requires Linked() && node in lru
      modifies `data, `lru, `volatileKeys, `memoryUsed, lru`volatileIndex, node`expiresAtMs
      ensures Linked() && (old(Accounted()) ==> Accounted())
      ensures data == old(data) - {node.key}
      ensures lru == Without(old(lru), node) && forall i :: 0 <= i < |lru| ==> lru[i] in old(lru)
      ensures memoryUsed == old(memoryUsed) - node.memory
      ensures |volatileKeys| == old(|volatileKeys|) - (if old(node.expiresAtMs) == NO_EXPIRY then 0 else 1)
      ensures forall i :: 0 <= i < |volatileKeys| ==> volatileKeys[i] in old(volatileKeys) && volatileKeys[i] != node
      ensures Contents() == old(Contents()) - {node.key}
      ensures Recency() == Others(old(Recency()), node.key)
    {
      hide Mirrors, Ranked, Indexed, Sum, Weights, Distinct, Without, EntryCost, Contents, KeysOf, Others;
      RankedDistinct(lru, tick);
      KeysWithout(data, lru, node);
      MirrorsWithout(data, lru, node);
      RankedWithout(lru, tick, node);
      RemovedWeight(lru, node);
      WithoutMembers(lru, node);
      ClearExpiry(node);
      IndexedWithout(lru, volatileKeys, node);
      lru := Without(lru, node);
      memoryUsed := memoryUsed - node.memory;
      data := data - {node.key};
      ContentsWithout(node);
    }

    /** Entries other than the erased one are as they were. */
    twostate lemma ContentsWithout(node: Node)
      requires old(Mirrors(data, lru)) && node in old(lru)
      requires data == old(data) - {node.key}
      requires forall n :: n in old(lru) && n != node ==> n.value == old(n.value) && n.expiresAtMs == old(n.expiresAtMs)
      ensures Contents() == old(Contents()) - {node.key}
    {
    }

    method Create(key: string, value: Value) returns (node: Node)
      requires Linked() && key !in data
      modifies `data, `lru, `memoryUsed, `tick
      ensures Linked() && (old(Accounted()) ==> Accounted())
      ensures fresh(node) && node in lru && node.key == key && node.value == value
      ensures node.expiresAtMs == NO_EXPIRY && node.memory == EntryCost(key, value)
      ensures data == old(data)[key := node]
      ensures lru == [node] + old(lru)
      ensures memoryUsed == old(memoryUsed) + EntryCost(key, value)
      ensures Contents() == old(Contents())[key := Item(value, None)]
      ensures Recency() == Used(old(Recency()), key)
    {
      hide Mirrors, Ranked, Indexed, Sum, Weights, Contents, EntryCost, Charged, KeysOf, Others;
      KeysAbsent(data, lru, key);
      var payload := PayloadMemory(value);
      EntryCostIs(key, value);
      node := new Node(key, value, ENTRY_OVERHEAD + |key| + payload, tick);
      KeysFront(node, lru);
      Insert(node);
    }

    /** Links a new node into the map and at the front of the recency list. */
    method Insert(node: Node)
      requires Linked() && node.key !in data && node.stamp == tick
      requires node.expiresAtMs == NO_EXPIRY && node.volatileIndex == NOT_VOLATILE
      modifies `data, `lru, `memoryUsed, `tick
      ensures Linked()
      ensures old(Accounted()) && node.memory == EntryCost(node.key, node.value) ==> Accounted()
      ensures data == old(data)[node.key := node]
      ensures lru == [node] + old(lru)
      ensures memoryUsed == old(memoryUsed) + node.memory
      ensures Contents() == old(Contents())[node.key := node.ToItem()]
    {
      hide Mirrors, Ranked, Indexed, Sum, Weights, Contents, EntryCost, Charged;
      MirrorsFront(data, lru, node);
      RankedFront(node, lru, tick);
      IndexedFront(lru, volatileKeys, node);
      FrontWeight(node, lru);
      if Charged(lru) && node.memory == EntryCost(node.key, node.value) {
        ChargedFront(node, lru);
      }
      tick := tick + 1;
      data := data[node.key := node];
      lru := [node] + lru;
      memoryUsed := memoryUsed + node.memory;
      ContentsWith(node.key);
    }

    lemma EntryCostIs(key: string, value: Value)
      ensures EntryCost(key, value) == ENTRY_OVERHEAD + |key| + Payload(value)
    {
    }

    /** A new entry, and the others as they were. */
    twostate lemma ContentsWith(key: string)
      requires key in data && key !in old(data) && data == old(data)[key := data[key]]
      requires forall k :: k in old(data) ==> unchanged(data[k])
      ensures Contents() == old(Contents())[key := data[key].ToItem()]
    {
    }

    /** Moves the node to the front of the recency list. */
    method Touch(node: Node)
      requires Linked() && node in lru
      modifies `lru, `tick, node`stamp
      ensures Linked() && (old(Accounted()) ==> Accounted())
      ensures lru == [node] + Without(old(lru), node)
      ensures forall i :: 0 <= i < |lru| ==> lru[i] in old(lru)
      ensures forall i :: 0 <= i < |old(lru)| ==> old(lru)[i] in lru
      ensures Recency() == Used(old(Recency()), node.key)
    {
      hide Mirrors, Ranked, Indexed, Sum, Weights, Distinct, Without, EntryCost, KeysOf, Others, Used;
      RankedDistinct(lru, tick);
      TouchedOrder(data, lru, node);
      RankedWithout(lru, tick, node);
      SameMembers(lru, node);
      WithoutMembers(lru, node);
      ghost var before := lru;
      lru := [node] + Without(lru, node);
      node.stamp := tick;
      RankedFront(node, Without(before, node), tick);
      tick := tick + 1;
      MirrorsSame(data, before, lru);
      IndexedSame(before, volatileKeys, lru);
      RemovedWeight(before, node);
      FrontWeight(node, Without(before, node));
    }

    /** Changing one node's memory changes the sum by as much. */
    twostate lemma ChangedWeight(node: Node)
      requires old(Distinct(lru)) && lru == old(lru) && node in old(lru)
      requires forall n :: n in old(lru) && n != node ==> n.memory == old(n.memory)
      ensures Sum(Weights(lru)) == old(Sum(Weights(lru))) - old(node.memory) + node.memory
    {
      hide Sum;
      var i :| 0 <= i < |lru| && lru[i] == node;
      var w := old(Weights(lru));
      assert Weights(lru) == w[i := node.memory];
      SumUpdate(w, i, node.memory);
    }

    method AddMemory(node: Node, bytes: nat)
      requires Linked() && node in lru
      modifies `memoryUsed, node`memory
      ensures Linked()
      ensures node.memory == old(node.memory) + bytes && memoryUsed == old(memoryUsed) + bytes
    {
      hide Mirrors, Ranked, Indexed, Sum, Weights, Distinct;
      RankedDistinct(lru, tick);
      node.memory := node.memory + bytes;
      memoryUsed := memoryUsed + bytes;
      ChangedWeight(node);
    }

    /** No subtraction goes below zero. */
    method RemoveMemory(node: Node, bytes: nat)
      requires Linked() && node in lru && bytes <= node.memory
      modifies `memoryUsed, node`memory
      ensures Linked()
      ensures node.memory == old(node.memory) - bytes && memoryUsed == old(memoryUsed) - bytes
    {
      hide Mirrors, Ranked, Indexed, Sum, Weights, Distinct;
      RankedDistinct(lru, tick);
      RemovedWeight(lru, node);
      node.memory := node.memory - bytes;
      memoryUsed := memoryUsed - bytes;
      ChangedWeight(node);
    }

    /** Lazy expiry: an expired key is removed when it is looked up, which no client can see. */
    method FindLive(key: string, now: int) returns (node: Node?)
      requires Valid()
      modifies `data, `lru, `volatileKeys, `memoryUsed, `expiredKeys, lru`volatileIndex, lru`expiresAtMs
      ensures Valid()
      ensures View(now) == old(View(now))
      ensures node == null <==> key !in View(now)
      ensures node == null ==> key !in data
      ensures node != null ==> node in lru && key in data && data[key] == node && node.ToItem() == View(now)[key]
      ensures node != null ==> data == old(data) && lru == old(lru) && memoryUsed == old(memoryUsed)
      ensures node == null ==> Recency() == Others(old(Recency()), key)
      ensures expiredKeys == old(expiredKeys) + (if key in old(data) && node == null then 1 else 0)
      ensures memoryUsed <= old(memoryUsed)
      ensures forall i :: 0 <= i < |lru| ==> lru[i] in old(lru)
      ensures data.Keys <= old(data.Keys)
    {
      hide Ranked, Indexed, Sum, Weights, Without, Accounted, Live, Contents, KeysOf, Others;
      if key !in data {
        KeysAbsent(data, lru, key);
        MissingFromView(key, now);
        return null;
      }
      node := data[key];
      PresentInView(key, now);
      if node.expiresAtMs != NO_EXPIRY && now >= node.expiresAtMs {
        LiveDropsExpired(Contents(), key, now);
        Erase(node);
        expiredKeys := expiredKeys + 1;
        MissingFromView(key, now);
        return null;
      }
    }

    lemma MissingFromView(key: string, now: int)
      requires key !in data
      ensures key !in View(now)
    {
    }

    lemma PresentInView(key: string, now: int)
      requires key in data
      ensures key in Contents() && Contents()[key] == data[key].ToItem()
      ensures key in View(now) <==> data[key].ToItem().LiveAt(now)
      ensures key in View(now) ==> View(now)[key] == data[key].ToItem()
    {
    }

    /** The pattern with which most operations start: look the key up, create it if it is missing. */
    method FindOrCreate(key: string, blank: Value, now: int) returns (node: Node)
      requires Valid()
      modifies `data, `lru, `volatileKeys, `memoryUsed, `expiredKeys, `tick, lru`volatileIndex, lru`expiresAtMs
      ensures Valid()
      ensures node in lru && node.key == key && (node in old(lru) || fresh(node))
      ensures node.ToItem() == if key in old(View(now)) then old(View(now))[key] else Item(blank, None)
      ensures node.ToItem().LiveAt(now)
      ensures View(now) == old(View(now))[key := node.ToItem()]
      ensures memoryUsed <= old(memoryUsed) + if key in old(View(now)) then 0 else EntryCost(key, blank)
      ensures Used(Recency(), key) == Used(old(Recency()), key)
      ensures key in old(View(now)) ==> Recency() == old(Recency())
      ensures forall i :: 0 <= i < |lru| ==> lru[i] in old(lru) || fresh(lru[i])
      ensures data.Keys <= old(data.Keys) + {key}
    {
      hide Ranked, Indexed, Sum, Weights, Without, Accounted, Live, Contents, EntryCost, KeysOf, Others, Used;
      OthersTwice(Recency(), key);
      var found := FindLive(key, now);
      if found != null {
        PresentInView(key, now);
        assert View(now)[key := found.ToItem()] == View(now);
        return found;
      }
      LivePut(Contents(), key, Item(blank, None), now);
      node := Create(key, blank);
    }

    /** Changes a value in place and adjusts the memory of its entry and the total. */
    method Amend(node: Node, value: Value, added: nat, removed: nat, ghost now: int)
      requires Valid() && node in lru && node.ToItem().LiveAt(now)
      requires removed <= node.memory && EntryCost(node.key, value) == node.memory - removed + added
      modifies `memoryUsed, node`memory, node`value
      ensures Valid() && node.value == value
      ensures View(now) == old(View(now))[node.key := Item(value, node.ToItem().deadline)]
      ensures memoryUsed == old(memoryUsed) - removed + added
    {
      hide Ranked, Indexed, Sum, Weights, Live, EntryCost, Contents;
      RemoveMemory(node, removed);
      node.value := value;
      AddMemory(node, added);
      ContentsRewritten(node);
      LivePut(old(Contents()), node.key, node.ToItem(), now);
    }

    twostate lemma ContentsRewritten(node: Node)
      requires old(Mirrors(data, lru)) && node in old(lru) && data == old(data)
      requires forall n :: n in old(lru) && n != node ==> n.value == old(n.value) && n.expiresAtMs == old(n.expiresAtMs)
      ensures Contents() == old(Contents())[node.key := node.ToItem()]
    {
    }

    // -------------------------------------------------------------
    // Keyspace
    // -------------------------------------------------------------

    /** The value of a key, without touching it. */
    method Lookup(key: string, now: int) returns (v: Option<Value>)
      requires Valid()
      modifies this, lru
      ensures Valid() && memoryLimit == old(memoryLimit) && policy == old(policy)
      ensures View(now) == old(View(now)) && v == ValueAt(old(View(now)), key)
      ensures memoryUsed <= old(memoryUsed)
      ensures forall i :: 0 <= i < |lru| ==> lru[i] in old(lru)
      ensures Recency() == if key in View(now) then old(Recency()) else Others(old(Recency()), key)
      ensures data.Keys <= old(data.Keys)
    {
      hide Ranked, Indexed, Sum, Weights, Without, Live, Contents, Mirrors, Did, View, Linked, EntryCost;
      hide KeysOf, Others, Used, Recency;
      var node := FindLive(key, now);
      return if node == null then None else Some(node.value);
    }

    method Exists(key: string, now: int) returns (present: bool)
      requires Valid()
      modifies this, lru
      ensures Valid() && memoryLimit == old(memoryLimit) && policy == old(policy)
      ensures View(now) == old(View(now)) && (present <==> key in old(View(now)))
      ensures memoryUsed <= old(memoryUsed)
      ensures forall i :: 0 <= i < |lru| ==> lru[i] in old(lru)
      ensures Recency() == if key in View(now) then old(Recency()) else Others(old(Recency()), key)
      ensures data.Keys <= old(data.Keys)
    {
      hide Ranked, Indexed, Sum, Weights, Without, Live, Contents, Mirrors, Did, View, Linked, EntryCost;
      hide KeysOf, Others, Used, Recency;
      var node := FindLive(key, now);
      return node != null;
    }

    method Del(key: string, now: int) returns (deleted: bool)
      requires Valid()
      modifies this, lru
      ensures Valid() && memoryLimit == old(memoryLimit) && policy == old(policy)
      ensures View(now) == old(View(now)) - {key} && (deleted <==> key in old(View(now)))
      ensures memoryUsed <= old(memoryUsed)
      ensures forall i :: 0 <= i < |lru| ==> lru[i] in old(lru)
      ensures Recency() == Others(old(Recency()), key)
      ensures data.Keys <= old(data.Keys)
    {
      hide Ranked, Indexed, Sum, Weights, Without, Live, Contents, Mirrors, Did, View, Linked, EntryCost;
      hide KeysOf, Others, Used, Recency;
      OthersTwice(Recency(), key);
      var node := FindLive(key, now);
      if node == null {
        assert View(now) - {key} == View(now);
        return false;
      }
      NodeKey(key);
      EraseFromView(node, now);
      return true;
    }

    /** Erasing an entry removes its key from every later view. */
    method EraseFromView(node: Node, ghost now: int)
      requires Valid() && node in lru
      modifies `data, `lru, `volatileKeys, `memoryUsed, lru`volatileIndex, node`expiresAtMs
      ensures Valid()
      ensures View(now) == old(View(now)) - {node.key}
      ensures memoryUsed == old(memoryUsed) - node.memory
      ensures forall i :: 0 <= i < |lru| ==> lru[i] in old(lru)
      ensures Recency() == Others(old(Recency()), node.key)
      ensures data == old(data) - {node.key}
    {
      hide Ranked, Indexed, Sum, Weights, Without, Live, Contents, Mirrors, EntryCost, KeysOf, Others, Used;
      hide Recency;
      LiveMinus(Contents(), node.key, now);
      Erase(node);
    }

    // -------------------------------------------------------------
    // Strings
    // -------------------------------------------------------------

    /** SET replaces whatever was there, its deadline included. */
    method Set(key: string, value: string, now: int)
      requires Valid()
      modifies this, lru
      ensures Valid() && memoryLimit == old(memoryLimit) && policy == old(policy)
      ensures View(now) == old(View(now))[key := Item(Str(value), None)]
      ensures memoryUsed <= old(memoryUsed) + ENTRY_OVERHEAD + |key| + |value|
      ensures forall i :: 0 <= i < |lru| ==> lru[i] in old(lru) || fresh(lru[i])
      ensures Recency() == Used(old(Recency()), key)
      ensures data.Keys <= old(data.Keys) + {key}
    {
      hide Linked, Accounted, Without, Live, Contents, View, KeysOf, Others, Used, Recency;
      OthersTwice(Recency(), key);
      var node := FindLive(key, now);
      if node != null {
        NodeKey(key);
        EraseFromView(node, now);
      }
      assert View(now)[key := Item(Str(value), None)] == old(View(now))[key := Item(Str(value), None)];
      node := CreateInView(key, Str(value), now);
    }

    /** A new key is visible at once. */
    method CreateInView(key: string, value: Value, ghost now: int) returns (node: Node)
      requires Valid() && key !in data
      modifies `data, `lru, `memoryUsed, `tick
      ensures Valid() && fresh(node) && lru == [node] + old(lru)
      ensures View(now) == old(View(now))[key := Item(value, None)]
      ensures memoryUsed == old(memoryUsed) + EntryCost(key, value)
      ensures Recency() == Used(old(Recency()), key)
      ensures data == old(data)[key := node]
    {
      hide Linked, Accounted, Live, Contents, EntryCost, KeysOf, Others, Used, Recency;
      LivePut(Contents(), key, Item(value, None), now);
      node := Create(key, value);
    }

    lemma NodeKey(key: string)
      requires Linked() && key in data
      ensures data[key].key == key && data[key] in lru
    {
      hide Ranked, Indexed;
    }

    /** GET makes the key the most recently used one, unless it holds another kind of value. */
    method Get(key: string, now: int) returns (r: Result<Option<string>>)
      requires Valid()
      modifies this, lru
      ensures Valid() && memoryLimit == old(memoryLimit) && policy == old(policy)
      ensures View(now) == old(View(now))
      ensures match ValueAt(old(View(now)), key)
              case None => r == Returned(None)
              case Some(Str(text)) => r == Returned(Some(text))
              case Some(_) => r == Raised(WrongType)
      ensures memoryUsed <= old(memoryUsed)
      ensures forall i :: 0 <= i < |lru| ==> lru[i] in old(lru)
      ensures match ValueAt(old(View(now)), key)
              case Some(Str(_)) => Recency() == Used(old(Recency()), key) && keyspaceHits == old(keyspaceHits) + 1
              case Some(_) => Recency() == old(Recency()) && keyspaceHits == old(keyspaceHits)
              case None => Recency() == Others(old(Recency()), key) && keyspaceMisses == old(keyspaceMisses) + 1
      ensures data.Keys <= old(data.Keys)
    {
      hide Ranked, Indexed, Sum, Weights, Without, Live, Contents, Mirrors, Did, View, Linked, EntryCost;
      hide KeysOf, Others, Used, Recency;
      var node := FindLive(key, now);
      if node == null {
        keyspaceMisses := keyspaceMisses + 1;
        return Returned(None);
      }
      if !node.value.Str? {
        return Raised(WrongType);
      }
      keyspaceHits := keyspaceHits + 1;
      NodeKey(key);
      Touch(node);
      return Returned(Some(node.value.text));
    }

    method IncrementBy(key: string, delta: int, now: int) returns (r: Result<Answer>)
      requires Valid() && IsInt64(delta)
      modifies this, lru
      ensures Valid() && memoryLimit == old(memoryLimit) && policy == old(policy)
      ensures Did(old(View(now)), key, Increment(delta), View(now), r)
      ensures memoryUsed <= old(memoryUsed) + Growth(key, Increment(delta))
      ensures forall i :: 0 <= i < |lru| ==> lru[i] in old(lru) || fresh(lru[i])
      ensures Recency() == if r.Returned? then Used(old(Recency()), key) else old(Recency())
      ensures data.Keys <= old(data.Keys) + {key}
    {
      hide Ranked, Indexed, Sum, Weights, Without, Live, Contents, Mirrors, Did, ParseInteger, IntToText;
      hide View, Linked, KeysOf, Others, Used, Recency, Modify;
      var node := FindOrCreate(key, Str("0"), now);
      ghost var item := node.ToItem();
      DidCreating(old(View(now)), key, Increment(delta), item);
      if !node.value.Str? {
        return Raised(WrongType);
      }
      ZeroParses();
      var text := node.value.text;
      var current := ParseInteger(text);
      if current.None? {
        return Raised(NotInteger);
      }
      var result := current.value + delta;
      if !IsInt64(result) {
        return Raised(IncrementOverflow);
      }
      var updated := IntToText(result);
      IntegerTextLength(result);
      Amend(node, Str(updated), |updated|, |text|, now);
      PutTwice(old(View(now)), key, item, node.ToItem());
      Touch(node);
      return Returned(Number(result));
    }

    lemma ZeroParses()
      ensures ParseInteger("0") == Some(0)
    {
      IntegerRoundTrip(0);
    }

    method AppendTo(key: string, value: string, now: int) returns (r: Result<Answer>)
      requires Valid()
      modifies this, lru
      ensures Valid() && memoryLimit == old(memoryLimit) && policy == old(policy)
      ensures Did(old(View(now)), key, AppendText(value), View(now), r)
      ensures memoryUsed <= old(memoryUsed) + Growth(key, AppendText(value))
      ensures forall i :: 0 <= i < |lru| ==> lru[i] in old(lru) || fresh(lru[i])
      ensures Recency() == if r.Returned? then Used(old(Recency()), key) else old(Recency())
      ensures data.Keys <= old(data.Keys) + {key}
    {
      hide Ranked, Indexed, Sum, Weights, Without, Live, Contents, Mirrors, Did, View, Linked, KeysOf, Others;
      hide Used, Recency, Modify, ParseInteger, IntToText;
      var node := FindOrCreate(key, Str(""), now);
      ghost var item := node.ToItem();
      DidCreating(old(View(now)), key, AppendText(value), item);
      if !node.value.Str? {
        return Raised(WrongType);
      }
      var text := node.value.text + value;
      Amend(node, Str(text), |value|, 0, now);
      PutTwice(old(View(now)), key, item, node.ToItem());
      Touch(node);
      return Returned(Number(|text|));
    }

    // -------------------------------------------------------------
    // Expiration
    // -------------------------------------------------------------

    /** A deadline that has passed deletes the key at once. */
    method ExpireAtMs(key: string, unixTimeMs: int, now: int) returns (found: bool)
      requires Valid() && 0 <= now
      modifies this, lru
      ensures Valid() && memoryLimit == old(memoryLimit) && policy == old(policy)
      ensures found <==> key in old(View(now))
      ensures View(now) ==
        if !found then old(View(now))
        else if unixTimeMs <= now then old(View(now)) - {key}
        else old(View(now))[key := Item(old(View(now))[key].value, Some(unixTimeMs))]
      ensures memoryUsed <= old(memoryUsed)
      ensures forall i :: 0 <= i < |lru| ==> lru[i] in old(lru)
      ensures Recency() == if key in View(now) then old(Recency()) else Others(old(Recency()), key)
      ensures data.Keys <= old(data.Keys)
    {
      hide Ranked, Sum, Weights, Without, Live, Contents, Mirrors, EntryCost, Indexed, KeysOf, Others, Used;
      hide Recency;
      var node := FindLive(key, now);
      if node == null {
        return false;
      }
      NodeKey(key);
      if unixTimeMs <= now {
        EraseFromView(node, now);
        return true;
      }
      SetDeadline(node, unixTimeMs, now);
      return true;
    }

    method SetDeadline(node: Node, unixTimeMs: int, ghost now: int)
      requires Valid() && node in lru && unixTimeMs != NO_EXPIRY && now < unixTimeMs
      modifies `volatileKeys, node`volatileIndex, node`expiresAtMs
      ensures Valid()
      ensures View(now) == old(View(now))[node.key := Item(node.value, Some(unixTimeMs))]
    {
      hide Ranked, Sum, Weights, Without, Live, Contents, EntryCost, Indexed;
      SetExpiry(node, unixTimeMs);
      ContentsRewritten(node);
      LivePut(old(Contents()), node.key, node.ToItem(), now);
    }

    method Persist(key: string, now: int) returns (cleared: bool)
      requires Valid()
      modifies this, lru
      ensures Valid() && memoryLimit == old(memoryLimit) && policy == old(policy)
      ensures cleared <==> key in old(View(now)) && old(View(now))[key].deadline.Some?
      ensures View(now) ==
        if cleared then old(View(now))[key := Item(old(View(now))[key].value, None)] else old(View(now))
      ensures memoryUsed <= old(memoryUsed)
      ensures forall i :: 0 <= i < |lru| ==> lru[i] in old(lru)
      ensures Recency() == if key in View(now) then old(Recency()) else Others(old(Recency()), key)
      ensures data.Keys <= old(data.Keys)
    {
      hide Ranked, Sum, Weights, Without, Live, Contents, Mirrors, EntryCost, Indexed, KeysOf, Others, Used;
      hide Recency;
      var node := FindLive(key, now);
      if node == null || node.expiresAtMs == NO_EXPIRY {
        return false;
      }
      NodeKey(key);
      ClearDeadline(node, now);
      return true;
    }

    method ClearDeadline(node: Node, ghost now: int)
      requires Valid() && node in lru
      modifies `volatileKeys, lru`volatileIndex, node`expiresAtMs
      ensures Valid()
      ensures View(now) == old(View(now))[node.key := Item(node.value, None)]
    {
      hide Ranked, Sum, Weights, Without, Live, Contents, EntryCost, Indexed;
      ClearExpiry(node);
      ContentsRewritten(node);
      LivePut(old(Contents()), node.key, node.ToItem(), now);
    }

    /** -2 for a missing key, -1 for one without a deadline, otherwise the milliseconds left. */
    method TtlMs(key: string, now: int) returns (ttl: int)
      requires Valid()
      modifies this, lru
      ensures Valid() && memoryLimit == old(memoryLimit) && policy == old(policy)
      ensures View(now) == old(View(now))
      ensures key !in View(now) ==> ttl == -2
      ensures key in View(now) && View(now)[key].deadline.None? ==> ttl == -1
      ensures key in View(now) && View(now)[key].deadline.Some? ==>
        ttl == View(now)[key].deadline.value - now && ttl > 0
      ensures memoryUsed <= old(memoryUsed)
      ensures forall i :: 0 <= i < |lru| ==> lru[i] in old(lru)
      ensures Recency() == if key in View(now) then old(Recency()) else Others(old(Recency()), key)
      ensures data.Keys <= old(data.Keys)
    {
      hide Ranked, Indexed, Sum, Weights, Without, Contents, Mirrors, Linked, EntryCost, KeysOf, Others, Used;
      hide Recency;
      var node := FindLive(key, now);
      if node == null {
        return -2;
      }
      if node.expiresAtMs == NO_EXPIRY {
        return -1;
      }
      return node.expiresAtMs - now;
    }

    // -------------------------------------------------------------
    // Lists
    // -------------------------------------------------------------

    method ListPush(key: string, values: seq<string>, side: Side, now: int) returns (r: Result<Answer>)
      requires Valid()
      modifies this, lru
      ensures Valid() && memoryLimit == old(memoryLimit) && policy == old(policy)
      ensures Did(old(View(now)), key, PushValues(values, side), View(now), r)
      ensures memoryUsed <= old(memoryUsed) + Growth(key, PushValues(values, side))
      ensures forall i :: 0 <= i < |lru| ==> lru[i] in old(lru) || fresh(lru[i])
      ensures Recency() == if r.Returned? then Used(old(Recency()), key) else old(Recency())
      ensures data.Keys <= old(data.Keys) + {key}
    {
      hide Ranked, Indexed, Sum, Weights, Without, Live, Contents, Mirrors, Did, View, Linked, EntryCost;
      hide Accounted, ToSet, Change, KeysOf, Others, Used, Recency, PushAll, ListCost, Modify;
      var node := FindOrCreate(key, List([]), now);
      ghost var item := node.ToItem();
      DidPush(old(View(now)), key, item, values, side);
      if !node.value.List? {
        return Raised(WrongType);
      }
      BlankCost(key);
      PushEach(node, values, side, now);
      PutTwice(old(View(now)), key, item, node.ToItem());
      Touch(node);
      return Returned(Number(|node.value.elements|));
    }

    /** The loop of listPush. */
    method PushEach(node: Node, values: seq<string>, side: Side, ghost now: int)
      requires Valid() && node in lru && node.value.List? && node.ToItem().LiveAt(now)
      modifies `memoryUsed, node`memory, node`value
      ensures Valid()
      ensures node.value == List(PushAll(old(node.value.elements), values, side))
      ensures View(now) == old(View(now))[node.key := node.ToItem()]
      ensures memoryUsed == old(memoryUsed) + ListCost(values)
    {
      hide Ranked, Indexed, Sum, Weights, Without, Live, Contents, Mirrors, View, Linked;
      SameAsStored(node, now);
      for i := 0 to |values|
        invariant Valid() && node.value == List(PushAll(old(node.value.elements), values[..i], side))
        invariant View(now) == old(View(now))[node.key := node.ToItem()]
        invariant memoryUsed == old(memoryUsed) + ListCost(values[..i])
      {
        var value := values[i];
        assert values[..i + 1] == values[..i] + [value];
        ListCostPushBack(values[..i], value);
        var elements := node.value.elements;
        ListCostPushFront(elements, value);
        ListCostPushBack(elements, value);
        ghost var item := node.ToItem();
        Amend(node, List(if side.Left? then [value] + elements else elements + [value]), ElementCost(value), 0, now);
        PutTwice(old(View(now)), node.key, item, node.ToItem());
      }
      assert values[..|values|] == values;
    }

    /** A live node's entry in the view is the node itself. */
    lemma SameAsStored(node: Node, now: int)
      requires Linked() && node in lru && node.ToItem().LiveAt(now)
      ensures node.key in View(now) && View(now)[node.key] == node.ToItem()
      ensures View(now)[node.key := node.ToItem()] == View(now)
    {
      hide Ranked, Indexed;
    }

    lemma BlankCost(key: string)
      ensures EntryCost(key, List([])) == ENTRY_OVERHEAD + |key|
      ensures EntryCost(key, Hash(map[])) == ENTRY_OVERHEAD + |key|
      ensures EntryCost(key, Value.Set({})) == ENTRY_OVERHEAD + |key|
    {
    }

    /** Popping the last element removes the key. Popping from an empty list is undefined in the source. */
    method ListPop(key: string, side: Side, now: int) returns (r: Result<Answer>)
      requires Valid()
      requires key in View(now) ==> Proper(View(now)[key].value)
      modifies this, lru
      ensures Valid() && memoryLimit == old(memoryLimit) && policy == old(policy)
      ensures Did(old(View(now)), key, PopValue(side), View(now), r)
      ensures memoryUsed <= old(memoryUsed)
      ensures forall i :: 0 <= i < |lru| ==> lru[i] in old(lru)
      ensures Recency() ==
        if key !in View(now) then Others(old(Recency()), key)
        else if r.Returned? then Used(old(Recency()), key)
        else old(Recency())
      ensures data.Keys <= old(data.Keys)
    {
      hide Ranked, Indexed, Sum, Weights, Without, Live, Contents, Mirrors, View, Linked, Did, Change, Modify;
      hide PopFrom, EntryCost, KeysOf, Others, Used, Recency;
      var node := FindLive(key, now);
      if node == null {
        DidMissing(old(View(now)), key, PopValue(side));
        return Returned(Popped(None));
      }
      NodeKey(key);
      if !node.value.List? {
        DidWrongType(old(View(now)), key, PopValue(side));
        return Raised(WrongType);
      }
      var elements := node.value.elements;
      var (value, rest) := PopFrom(elements, side);
      DidPop(old(View(now)), key, elements, side);
      PopCost(key, elements, side);
      LiveInView(key, now);
      assert node.memory == EntryCost(key, node.value);
      Amend(node, List(rest), 0, ElementCost(value), now);
      if rest == [] {
        EraseFromView(node, now);
        MinusAfterPut(old(View(now)), key, Item(List(rest), node.ToItem().deadline));
        MinusAfterPut(old(View(now)), key, Item(List(rest), old(View(now))[key].deadline));
      } else {
        Touch(node);
      }
      return Returned(Popped(Some(value)));
    }

    lemma PopCost(key: string, elements: seq<string>, side: Side)
      requires elements != []
      ensures var (value, rest) := PopFrom(elements, side);
              EntryCost(key, List(elements)) == EntryCost(key, List(rest)) + ElementCost(value)
    {
      var (value, rest) := PopFrom(elements, side);
      ListCostPushFront(rest, value);
      ListCostPushBack(rest, value);
    }

    lemma LiveInView(key: string, now: int)
      requires key in data && key in View(now)
      ensures data[key].ToItem().LiveAt(now)
    {
    }

    /** LRANGE touches the list only when the range is not empty. */
    method ListRange(key: string, start: int, stop: int, now: int) returns (r: Result<seq<string>>)
      requires Valid()
      modifies this, lru
      ensures Valid() && memoryLimit == old(memoryLimit) && policy == old(policy)
      ensures View(now) == old(View(now))
      ensures match ValueAt(old(View(now)), key)
              case None => r == Returned([])
              case Some(List(elements)) => r == Returned(Slice(elements, start, stop))
              case Some(_) => r == Raised(WrongType)
      ensures memoryUsed <= old(memoryUsed)
      ensures forall i :: 0 <= i < |lru| ==> lru[i] in old(lru)
      ensures Recency() ==
        if key !in View(now) then Others(old(Recency()), key)
        else if r.Returned? && r.value != [] then Used(old(Recency()), key)
        else old(Recency())
      ensures data.Keys <= old(data.Keys)
    {
      hide Ranked, Indexed, Sum, Weights, Without, Live, Contents, Mirrors, Did, View, Linked, EntryCost;
      hide KeysOf, Others, Used, Recency;
      var node := FindLive(key, now);
      if node == null {
        return Returned([]);
      }
      if !node.value.List? {
        return Raised(WrongType);
      }
      var elements := node.value.elements;
      var length := |elements|;
      var first := if start < 0 then start + length else start;
      var last := if stop < 0 then stop + length else stop;
      first := if first < 0 then 0 else first;
      last := if last > length - 1 then length - 1 else last;
      if first > last || first >= length {
        return Returned([]);
      }
      NodeKey(key);
      Touch(node);
      return Returned(elements[first..last + 1]);
    }

    method ListIndex(key: string, index: int, now: int) returns (r: Result<Option<string>>)
      requires Valid()
      modifies this, lru
      ensures Valid() && memoryLimit == old(memoryLimit) && policy == old(policy)
      ensures View(now) == old(View(now))
      ensures match ValueAt(old(View(now)), key)
              case None => r == Returned(None)
              case Some(List(elements)) => r == Returned(ElementAt(elements, index))
              case Some(_) => r == Raised(WrongType)
      ensures memoryUsed <= old(memoryUsed)
      ensures forall i :: 0 <= i < |lru| ==> lru[i] in old(lru)
      ensures Recency() ==
        if key !in View(now) then Others(old(Recency()), key)
        else if r.Returned? && r.value.Some? then Used(old(Recency()), key)
        else old(Recency())
      ensures data.Keys <= old(data.Keys)
    {
      hide Ranked, Indexed, Sum, Weights, Without, Live, Contents, Mirrors, Did, View, Linked, EntryCost;
      hide KeysOf, Others, Used, Recency;
      var node := FindLive(key, now);
      if node == null {
        return Returned(None);
      }
      if !node.value.List? {
        return Raised(WrongType);
      }
      var elements := node.value.elements;
      var at := if index < 0 then index + |elements| else index;
      if at < 0 || at >= |elements| {
        return Returned(None);
      }
      NodeKey(key);
      Touch(node);
      return Returned(Some(elements[at]));
    }

    // -------------------------------------------------------------
    // Hashes
    // -------------------------------------------------------------

    method HashSet(key: string, pairs: seq<(string, string)>, now: int) returns (r: Result<Answer>)
      requires Valid()
      modifies this, lru
      ensures Valid() && memoryLimit == old(memoryLimit) && policy == old(policy)
      ensures Did(old(View(now)), key, PutFields(pairs), View(now), r)
      ensures memoryUsed <= old(memoryUsed) + Growth(key, PutFields(pairs))
      ensures forall i :: 0 <= i < |lru| ==> lru[i] in old(lru) || fresh(lru[i])
      ensures Recency() == if r.Returned? then Used(old(Recency()), key) else old(Recency())
      ensures data.Keys <= old(data.Keys) + {key}
    {
      hide Ranked, Indexed, Sum, Weights, Without, Live, Contents, Mirrors, Did, View, Linked, EntryCost;
      hide Accounted;
      hide ToSet, Change, KeysOf, Others, Used, Recency, PutAll, PairsCost, Modify;
      var node := FindOrCreate(key, Hash(map[]), now);
      ghost var item := node.ToItem();
      DidPutFields(old(View(now)), key, item, pairs);
      if !node.value.Hash? {
        return Raised(WrongType);
      }
      BlankCost(key);
      PutTwice(old(View(now)), key, item, Item(Hash(PutAll(item.value.fields, pairs)), item.deadline));
      var added := PutAndTouch(node, pairs, now);
      return Returned(Number(added));
    }

    /** The rest of hashSet, once the hash is there. */
    method PutAndTouch(node: Node, pairs: seq<(string, string)>, ghost now: int) returns (added: nat)
      requires Valid() && node in lru && node.value.Hash? && node.ToItem().LiveAt(now)
      modifies `memoryUsed, `lru, `tick, node`memory, node`value, node`stamp
      ensures Valid()
      ensures var fields := PutAll(old(node.value.fields), pairs);
        && added == |fields| - |old(node.value.fields)|
        && View(now) == old(View(now))[node.key := Item(Hash(fields), old(node.ToItem()).deadline)]
      ensures memoryUsed <= old(memoryUsed) + PairsCost(pairs)
      ensures forall i :: 0 <= i < |lru| ==> lru[i] in old(lru)
      ensures Recency() == Used(old(Recency()), node.key)
    {
      hide Ranked, Indexed, Sum, Weights, Without, Live, Contents, Mirrors, View, Linked, EntryCost;
      hide Accounted;
      hide KeysOf, Others, Used, Recency, PutAll, PairsCost;
      added := PutEach(node, pairs, now);
      Touch(node);
    }

    /** The loop of hashSet: a new field costs its name, an old one gives its value back. */
    method PutEach(node: Node, pairs: seq<(string, string)>, ghost now: int) returns (added: nat)
      requires Valid() && node in lru && node.value.Hash? && node.ToItem().LiveAt(now)
      modifies `memoryUsed, node`memory, node`value
      ensures Valid()
      ensures node.value == Hash(PutAll(old(node.value.fields), pairs))
      ensures added == |node.value.fields| - |old(node.value.fields)|
      ensures View(now) == old(View(now))[node.key := node.ToItem()]
      ensures memoryUsed <= old(memoryUsed) + PairsCost(pairs)
    {
      hide Ranked, Indexed, Sum, Weights, Without, Live, Contents, Mirrors, View, Linked;
      SameAsStored(node, now);
      added := 0;
      for i := 0 to |pairs|
        invariant Valid() && node.value == Hash(PutAll(old(node.value.fields), pairs[..i]))
        invariant added == |node.value.fields| - |old(node.value.fields)|
        invariant View(now) == old(View(now))[node.key := node.ToItem()]
        invariant memoryUsed <= old(memoryUsed) + PairsCost(pairs[..i])
      {
        var (field, value) := pairs[i];
        assert pairs[..i + 1][..i] == pairs[..i];
        var fields := node.value.fields;
        HashCostPut(fields, field, value);
        ghost var item := node.ToItem();
        var inserted := field !in fields;
        var gained := if inserted then ElementCost(field) else 0;
        var lost := if inserted then 0 else |fields[field]|;
        if !inserted {
          HashCostOf(fields, field);
        }
        added := added + if inserted then 1 else 0;
        Amend(node, Hash(fields[field := value]), gained + |value|, lost, now);
        PutTwice(old(View(now)), node.key, item, node.ToItem());
      }
      assert pairs[..|pairs|] == pairs;
    }

    method HashDelete(key: string, names: seq<string>, now: int) returns (r: Result<Answer>)
      requires Valid()
      modifies this, lru
      ensures Valid() && memoryLimit == old(memoryLimit) && policy == old(policy)
      ensures Did(old(View(now)), key, RemoveFields(names), View(now), r)
      ensures memoryUsed <= old(memoryUsed)
      ensures forall i :: 0 <= i < |lru| ==> lru[i] in old(lru)
      ensures Recency() == if key in View(now) then old(Recency()) else Others(old(Recency()), key)
      ensures data.Keys <= old(data.Keys)
    {
      hide Ranked, Indexed, Sum, Weights, Without, Live, Contents, Mirrors, View, Linked, Accounted, Did;
      hide Change, Modify, ToSet, KeysOf, Others, Used, Recency;
      var node := FindLive(key, now);
      if node == null {
        DidMissing(old(View(now)), key, RemoveFields(names));
        return Returned(Number(0));
      }
      NodeKey(key);
      if !node.value.Hash? {
        DidWrongType(old(View(now)), key, RemoveFields(names));
        return Raised(WrongType);
      }
      DidRemoveFields(old(View(now)), key, node.value.fields, names);
      LiveInView(key, now);
      var removed := RemoveEachField(node, names, now);
      if node.value.fields == map[] {
        ghost var item := node.ToItem();
        EraseFromView(node, now);
        MinusAfterPut(old(View(now)), key, item);
      }
      return Returned(Number(removed));
    }

    method RemoveEachField(node: Node, names: seq<string>, ghost now: int) returns (removed: nat)
      requires Valid() && node in lru && node.value.Hash? && node.ToItem().LiveAt(now)
      modifies `memoryUsed, node`memory, node`value
      ensures Valid()
      ensures node.value == Hash(old(node.value.fields) - ToSet(names))
      ensures removed == |old(node.value.fields)| - |node.value.fields|
      ensures View(now) == old(View(now))[node.key := node.ToItem()]
      ensures memoryUsed <= old(memoryUsed)
    {
      hide Ranked, Indexed, Sum, Weights, Without, Live, Contents, Mirrors, View, Linked, ToSet, EntryCost;
      SameAsStored(node, now);
      removed := 0;
      NothingNamed(old(node.value.fields), {});
      assert names[..0] == [];
      for i := 0 to |names|
        invariant Valid() && node.value == Hash(old(node.value.fields) - ToSet(names[..i]))
        invariant removed == |old(node.value.fields)| - |node.value.fields|
        invariant View(now) == old(View(now))[node.key := node.ToItem()]
        invariant memoryUsed <= old(memoryUsed)
      {
        MinusOneMore(old(node.value.fields), names, i);
        ghost var item := node.ToItem();
        var found := RemoveField(node, names[i], now);
        PutTwice(old(View(now)), node.key, item, node.ToItem());
        if found {
          removed := removed + 1;
        }
      }
      assert names[..|names|] == names;
    }

    /** One turn of that loop; a field that is not there is skipped. */
    method RemoveField(node: Node, field: string, ghost now: int) returns (found: bool)
      requires Valid() && node in lru && node.value.Hash? && node.ToItem().LiveAt(now)
      modifies `memoryUsed, node`memory, node`value
      ensures Valid()
      ensures node.value == Hash(old(node.value.fields) - {field})
      ensures |node.value.fields| == |old(node.value.fields)| - (if found then 1 else 0)
      ensures View(now) == old(View(now))[node.key := node.ToItem()]
      ensures memoryUsed <= old(memoryUsed)
    {
      hide Ranked, Indexed, Sum, Weights, Without, Live, Contents, Mirrors, View, Linked, EntryCost;
      var fields := node.value.fields;
      SameAsStored(node, now);
      if field !in fields {
        assert fields - {field} == fields;
        return false;
      }
      RemoveFieldCost(node.key, fields, field);
      assert node.memory == EntryCost(node.key, node.value);
      Amend(node, Hash(fields - {field}), 0, ElementCost(field) + |fields[field]|, now);
      return true;
    }

    lemma NothingNamed(fields: map<string, string>, members: set<string>)
      ensures fields - ToSet([]) == fields && members - ToSet([]) == members && members + ToSet([]) == members
    {
    }

    lemma RemoveFieldCost(key: string, fields: map<string, string>, field: string)
      requires field in fields
      ensures EntryCost(key, Hash(fields)) ==
              EntryCost(key, Hash(fields - {field})) + ElementCost(field) + |fields[field]|
      ensures |fields - {field}| == |fields| - 1
    {
      HashCostOf(fields, field);
      assert fields.Keys == (fields - {field}).Keys + {field};
    }

    lemma MemberCost(key: string, members: set<string>, member: string)
      ensures member in members ==>
        EntryCost(key, Value.Set(members)) == EntryCost(key, Value.Set(members - {member})) + ElementCost(member)
      ensures member !in members ==>
        EntryCost(key, Value.Set(members + {member})) == EntryCost(key, Value.Set(members)) + ElementCost(member)
    {
      if member in members {
        SetCostOf(members, member);
      } else {
        SetCostAdd(members, member);
      }
    }

    lemma OneMoreMember(start: set<string>, members: seq<string>, i: nat)
      requires i < |members|
      ensures start + ToSet(members[..i + 1]) == start + ToSet(members[..i]) + {members[i]}
      ensures start - ToSet(members[..i + 1]) == start - ToSet(members[..i]) - {members[i]}
      ensures ListCost(members[..i + 1]) == ListCost(members[..i]) + ElementCost(members[i])
    {
      assert members[..i + 1] == members[..i] + [members[i]];
      ListCostPushBack(members[..i], members[i]);
    }

    lemma MinusOneMore(fields: map<string, string>, names: seq<string>, i: nat)
      requires i < |names|
      ensures fields - ToSet(names[..i + 1]) == fields - ToSet(names[..i]) - {names[i]}
    {
      assert names[..i + 1] == names[..i] + [names[i]];
    }

    method HashGet(key: string, field: string, now: int) returns (r: Result<Option<string>>)
      requires Valid()
      modifies this, lru
      ensures Valid() && memoryLimit == old(memoryLimit) && policy == old(policy)
      ensures View(now) == old(View(now))
      ensures match ValueAt(old(View(now)), key)
              case None => r == Returned(None)
              case Some(Hash(fields)) => r == Returned(if field in fields then Some(fields[field]) else None)
              case Some(_) => r == Raised(WrongType)
      ensures memoryUsed <= old(memoryUsed)
      ensures forall i :: 0 <= i < |lru| ==> lru[i] in old(lru)
      ensures Recency() ==
        if key !in View(now) then Others(old(Recency()), key)
        else if r.Returned? && r.value.Some? then Used(old(Recency()), key)
        else old(Recency())
      ensures data.Keys <= old(data.Keys)
    {
      hide Ranked, Indexed, Sum, Weights, Without, Live, Contents, Mirrors, Did, View, Linked, EntryCost;
      hide KeysOf, Others, Used, Recency;
      var node := FindLive(key, now);
      if node == null {
        return Returned(None);
      }
      if !node.value.Hash? {
        return Raised(WrongType);
      }
      if field !in node.value.fields {
        return Returned(None);
      }
      NodeKey(key);
      Touch(node);
      return Returned(Some(node.value.fields[field]));
    }

    /** HGETALL and SMEMBERS: the whole value, which becomes the most recently used. */
    method LookupWhole(key: string, hash: bool, now: int) returns (r: Result<Option<Value>>)
      requires Valid()
      modifies this, lru
      ensures Valid() && memoryLimit == old(memoryLimit) && policy == old(policy)
      ensures View(now) == old(View(now))
      ensures match ValueAt(old(View(now)), key)
              case None => r == Returned(None)
              case Some(v) => r == if (if hash then v.Hash? else v.Set?) then Returned(Some(v)) else Raised(WrongType)
      ensures memoryUsed <= old(memoryUsed)
      ensures forall i :: 0 <= i < |lru| ==> lru[i] in old(lru)
      ensures Recency() ==
        if key !in View(now) then Others(old(Recency()), key)
        else if r.Returned? then Used(old(Recency()), key)
        else old(Recency())
      ensures data.Keys <= old(data.Keys)
    {
      hide Ranked, Indexed, Sum, Weights, Without, Live, Contents, Mirrors, Did, View, Linked, EntryCost;
      hide KeysOf, Others, Used, Recency;
      var node := FindLive(key, now);
      if node == null {
        return Returned(None);
      }
      if (hash && !node.value.Hash?) || (!hash && !node.value.Set?) {
        return Raised(WrongType);
      }
      NodeKey(key);
      Touch(node);
      return Returned(Some(node.value));
    }

    // -------------------------------------------------------------
    // Sets
    // -------------------------------------------------------------

    method SetAdd(key: string, members: seq<string>, now: int) returns (r: Result<Answer>)
      requires Valid()
      modifies this, lru
      ensures Valid() && memoryLimit == old(memoryLimit) && policy == old(policy)
      ensures Did(old(View(now)), key, AddMembers(members), View(now), r)
      ensures memoryUsed <= old(memoryUsed) + Growth(key, AddMembers(members))
      ensures forall i :: 0 <= i < |lru| ==> lru[i] in old(lru) || fresh(lru[i])
      ensures Recency() == if r.Returned? then Used(old(Recency()), key) else old(Recency())
      ensures data.Keys <= old(data.Keys) + {key}
    {
      hide Ranked, Indexed, Sum, Weights, Without, Live, Contents, Mirrors, Did, View, Linked, EntryCost;
      hide Accounted, ToSet, Change, KeysOf, Others, Used, Recency, ListCost, Modify;
      var node := FindOrCreate(key, Value.Set({}), now);
      ghost var item := node.ToItem();
      DidAddMembers(old(View(now)), key, item, members);
      if !node.value.Set? {
        return Raised(WrongType);
      }
      BlankCost(key);
      var added := AddEach(node, members, now);
      PutTwice(old(View(now)), key, item, node.ToItem());
      Touch(node);
      return Returned(Number(added));
    }

    method AddEach(node: Node, members: seq<string>, ghost now: int) returns (added: nat)
      requires Valid() && node in lru && node.value.Set? && node.ToItem().LiveAt(now)
      modifies `memoryUsed, node`memory, node`value
      ensures Valid()
      ensures node.value == Value.Set(old(node.value.members) + ToSet(members))
      ensures added == |node.value.members| - |old(node.value.members)|
      ensures View(now) == old(View(now))[node.key := node.ToItem()]
      ensures memoryUsed <= old(memoryUsed) + ListCost(members)
    {
      hide Ranked, Indexed, Sum, Weights, Without, Live, Contents, Mirrors, View, Linked, ToSet, EntryCost;
      hide ElementCost;
      SameAsStored(node, now);
      added := 0;
      NothingNamed(map[], old(node.value.members));
      assert members[..0] == [];
      for i := 0 to |members|
        invariant Valid() && node.value == Value.Set(old(node.value.members) + ToSet(members[..i]))
        invariant added == |node.value.members| - |old(node.value.members)|
        invariant View(now) == old(View(now))[node.key := node.ToItem()]
        invariant memoryUsed <= old(memoryUsed) + ListCost(members[..i])
      {
        var member := members[i];
        var stored := node.value.members;
        OneMoreMember(old(node.value.members), members, i);
        MemberCost(node.key, stored, member);
        assert node.memory == EntryCost(node.key, node.value);
        if member !in stored {
          ghost var item := node.ToItem();
          Amend(node, Value.Set(stored + {member}), ElementCost(member), 0, now);
          PutTwice(old(View(now)), node.key, item, node.ToItem());
          added := added + 1;
        } else {
          assert stored + {member} == stored;
        }
      }
      assert members[..|members|] == members;
    }

    method SetRemove(key: string, members: seq<string>, now: int) returns (r: Result<Answer>)
      requires Valid()
      modifies this, lru
      ensures Valid() && memoryLimit == old(memoryLimit) && policy == old(policy)
      ensures Did(old(View(now)), key, RemoveMembers(members), View(now), r)
      ensures memoryUsed <= old(memoryUsed)
      ensures forall i :: 0 <= i < |lru| ==> lru[i] in old(lru)
      ensures Recency() == if key in View(now) then old(Recency()) else Others(old(Recency()), key)
      ensures data.Keys <= old(data.Keys)
    {
      hide Ranked, Indexed, Sum, Weights, Without, Live, Contents, Mirrors, View, Linked, Accounted, Did;
      hide Change, Modify, ToSet, KeysOf, Others, Used, Recency;
      var node := FindLive(key, now);
      if node == null {
        DidMissing(old(View(now)), key, RemoveMembers(members));
        return Returned(Number(0));
      }
      NodeKey(key);
      if !node.value.Set? {
        DidWrongType(old(View(now)), key, RemoveMembers(members));
        return Raised(WrongType);
      }
      DidRemoveMembers(old(View(now)), key, node.value.members, members);
      LiveInView(key, now);
      var removed := RemoveEachMember(node, members, now);
      if node.value.members == {} {
        ghost var item := node.ToItem();
        EraseFromView(node, now);
        MinusAfterPut(old(View(now)), key, item);
      }
      return Returned(Number(removed));
    }

    method RemoveEachMember(node: Node, members: seq<string>, ghost now: int) returns (removed: nat)
      requires Valid() && node in lru && node.value.Set? && node.ToItem().LiveAt(now)
      modifies `memoryUsed, node`memory, node`value
      ensures Valid()
      ensures node.value == Value.Set(old(node.value.members) - ToSet(members))
      ensures removed == |old(node.value.members)| - |node.value.members|
      ensures View(now) == old(View(now))[node.key := node.ToItem()]
      ensures memoryUsed <= old(memoryUsed)
    {
      hide Ranked, Indexed, Sum, Weights, Without, Live, Contents, Mirrors, View, Linked, Accounted, ToSet;
      hide EntryCost;
      SameAsStored(node, now);
      removed := 0;
      NothingNamed(map[], old(node.value.members));
      assert members[..0] == [];
      for i := 0 to |members|
        invariant Valid() && node.value == Value.Set(old(node.value.members) - ToSet(members[..i]))
        invariant removed == |old(node.value.members)| - |node.value.members|
        invariant View(now) == old(View(now))[node.key := node.ToItem()]
        invariant memoryUsed <= old(memoryUsed)
      {
        OneMoreMember(old(node.value.members), members, i);
        ghost var item := node.ToItem();
        var found := RemoveMember(node, members[i], now);
        PutTwice(old(View(now)), node.key, item, node.ToItem());
        if found {
          removed := removed + 1;
        }
      }
      assert members[..|members|] == members;
    }

    method RemoveMember(node: Node, member: string, ghost now: int) returns (found: bool)
      requires Valid() && node in lru && node.value.Set? && node.ToItem().LiveAt(now)
      modifies `memoryUsed, node`memory, node`value
      ensures Valid()
      ensures node.value == Value.Set(old(node.value.members) - {member})
      ensures |node.value.members| == |old(node.value.members)| - (if found then 1 else 0)
      ensures View(now) == old(View(now))[node.key := node.ToItem()]
      ensures memoryUsed <= old(memoryUsed)
    {
      hide Ranked, Indexed, Sum, Weights, Without, Live, Contents, Mirrors, View, Linked, EntryCost;
      var members := node.value.members;
      SameAsStored(node, now);
      if member !in members {
        assert members - {member} == members;
        return false;
      }
      MemberCost(node.key, members, member);
      assert node.memory == EntryCost(node.key, node.value);
      Amend(node, Value.Set(members - {member}), 0, ElementCost(member), now);
      return true;
    }

    // -------------------------------------------------------------
    // The whole keyspace
    // -------------------------------------------------------------

    method Clear()
      modifies `data, `lru, `volatileKeys, `memoryUsed
      ensures Valid() && Contents() == map[] && data == map[] && lru == [] && memoryUsed == 0
    {
      data, lru, volatileKeys, memoryUsed := map[], [], [], 0;
    }

    /** The number of stored entries, which counts expired ones until they are removed. */
    method Size(ghost now: int) returns (n: nat)
      ensures n == |data| && |View(now)| <= n
      ensures n == |View(now)| <==> forall k :: k in data ==> data[k].ToItem().LiveAt(now)
    {
      n := |data|;
      ghost var live := View(now);
      assert live.Keys <= data.Keys;
      SubsetSize(live.Keys, data.Keys);
      assert |live| == |live.Keys| && |data| == |data.Keys|;
      assert live.Keys == data.Keys <==> forall k :: k in data ==> data[k].ToItem().LiveAt(now) by {
        forall k | k in data ensures k in live <==> data[k].ToItem().LiveAt(now) {
          PresentInView(k, now);
        }
      }
    }

    /** The live keys that match a glob pattern, in ascending order; nothing is touched or removed. */
    method KeysMatching(pattern: string, now: int) returns (r: seq<string>)
      ensures r == Ordering.Listing(Glob.MatchingSet(View(now).Keys, pattern))
    {
      hide View, Contents, Live, Glob.MatchingSet, Glob.Matches, Ordering.Listing;
      ghost var live := View(now).Keys;
      var rest := data.Keys;
      var matches: set<string> := {};
      StoredKeys(now);
      Glob.MatchingNone(live, rest, pattern);
      while rest != {}
        invariant rest <= data.Keys
        invariant matches == Glob.MatchingSet(live - rest, pattern)
        decreases |rest|
      {
        var key :| key in rest;
        Glob.MatchingOneMore(live, rest, key, pattern);
        rest := rest - {key};
        var node := data[key];
        var expired := node.expiresAtMs != NO_EXPIRY && now >= node.expiresAtMs;
        PresentInView(key, now);
        var matching := Glob.GlobMatch(pattern, key);
        if !expired && matching {
          matches := matches + {key};
        }
      }
      Glob.MatchingAll(live, pattern);
      r := Ordering.SortedListing(matches);
    }

    lemma StoredKeys(now: int)
      ensures View(now).Keys <= data.Keys
    {
    }

    /** A key's value, time left and memory, without touching it and without removing it if it has expired. */
    method Inspect(key: string, now: int) returns (info: Option<(Value, int, nat)>)
      requires Valid()
      ensures info.Some? <==> key in View(now)
      ensures info.Some? ==>
        var item := View(now)[key];
        var remaining := if item.deadline.None? then -1 else item.deadline.value - now;
        info.value == (item.value, remaining, EntryCost(key, item.value))
    {
      hide Ranked, Indexed, Sum, Weights, EntryCost;
      if key !in data {
        MissingFromView(key, now);
        return None;
      }
      var node := data[key];
      NodeKey(key);
      PresentInView(key, now);
      var remaining := -1;
      if node.expiresAtMs != NO_EXPIRY {
        remaining := node.expiresAtMs - now;
        if remaining <= 0 {
          return None;
        }
      }
      return Some((node.value, remaining, node.memory));
    }

    // -------------------------------------------------------------
    // Active expiry
    // -------------------------------------------------------------

    /** Removes an expired node; no client can see the difference. */
    method ExpireNode(node: Node, now: int)
      requires Valid() && node in lru && node.expiresAtMs != NO_EXPIRY && node.expiresAtMs <= now
      modifies `data, `lru, `volatileKeys, `memoryUsed, lru`volatileIndex, node`expiresAtMs
      ensures Valid()
      ensures View(now) == old(View(now))
      ensures data == old(data) - {node.key} && node.key in old(data) && node.key !in old(View(now))
      ensures |volatileKeys| == old(|volatileKeys|) - 1
      ensures forall i :: 0 <= i < |volatileKeys| ==> volatileKeys[i] in old(volatileKeys) && volatileKeys[i] != node
      ensures forall i :: 0 <= i < |lru| ==> lru[i] in old(lru)
      ensures memoryUsed <= old(memoryUsed)
      ensures old(AllVolatileExpired(now)) ==> AllVolatileExpired(now)
      ensures Recency() == Others(old(Recency()), node.key)
    {
      hide Ranked, Indexed, Sum, Weights, Without, Live, Contents, EntryCost, Charged, KeysOf, Others;
      hide Recency;
      PresentInView(node.key, now);
      LiveDropsExpired(Contents(), node.key, now);
      Erase(node);
    }

    /** All nodes that have a deadline have passed it. */
    ghost predicate AllVolatileExpired(now: int)
      reads `volatileKeys, volatileKeys`expiresAtMs
    {
      forall i :: 0 <= i < |volatileKeys| ==> volatileKeys[i].expiresAtMs <= now
    }

    lemma HasDeadline(pick: nat, now: int)
      requires Linked() && pick < |volatileKeys|
      ensures volatileKeys[pick] in lru && volatileKeys[pick].expiresAtMs != NO_EXPIRY
      ensures AllVolatileExpired(now) ==> volatileKeys[pick].expiresAtMs <= now
    {
      hide Mirrors, Ranked, Sum, Weights;
    }

    /** The recency order is an order of the stored keys. */
    lemma AllKept()
      requires Linked()
      ensures Recency() == Kept(Recency(), data.Keys)
    {
      hide Ranked, Indexed, Sum, Weights;
      KeptAll(Recency(), data.Keys);
    }

    /**
     * One round of sampling. The index of each sample is arbitrary.
     */
    method SampleRound(samplesPerLoop: nat, now: int) returns (sampled: nat, expired: nat)
      requires Valid()
      modifies `data, `lru, `volatileKeys, `memoryUsed, lru`volatileIndex, lru`expiresAtMs
      ensures Valid()
      ensures View(now) == old(View(now))
      ensures data.Keys <= old(data.Keys) && |data| == |old(data)| - expired
      ensures |volatileKeys| == |old(volatileKeys)| - expired
      ensures old(AllVolatileExpired(now)) ==> AllVolatileExpired(now) && expired == sampled
      ensures samplesPerLoop > 0 && old(volatileKeys) != [] ==> sampled > 0
      ensures forall i :: 0 <= i < |lru| ==> lru[i] in old(lru)
      ensures memoryUsed <= old(memoryUsed)
      ensures Recency() == Kept(old(Recency()), data.Keys)
    {
      hide Linked, Without, Live, Contents, Accounted, View, AllVolatileExpired, Recency, Kept, Others;
      sampled, expired := 0, 0;
      AllKept();
      var samples := if samplesPerLoop < |volatileKeys| then samplesPerLoop else |volatileKeys|;
      while sampled < samples && volatileKeys != []
        invariant Valid() && View(now) == old(View(now))
        invariant data.Keys <= old(data.Keys) && |data| == |old(data)| - expired
        invariant |volatileKeys| == |old(volatileKeys)| - expired
        invariant old(AllVolatileExpired(now)) ==> AllVolatileExpired(now) && expired == sampled
        invariant sampled > 0 || volatileKeys == old(volatileKeys)
        invariant Recency() == Kept(old(Recency()), data.Keys)
        invariant forall i :: 0 <= i < |lru| ==> lru[i] in old(lru)
        invariant memoryUsed <= old(memoryUsed)
        decreases samples - sampled
      {
        var pick :| 0 <= pick < |volatileKeys|;
        var node := volatileKeys[pick];
        HasDeadline(pick, now);
        sampled := sampled + 1;
        if now >= node.expiresAtMs {
          ghost var before := data;
          OthersKept(old(Recency()), data.Keys, node.key);
          ExpireNode(node, now);
          KeysMinus(before, node.key);
          MinusOneKey(before, node.key);
          expired := expired + 1;
        }
      }
    }

    /**
     * Sampled expiry. It ends for every choice of samples, because a round is followed by
     * another one only if it removed something. `timed` says whether the time budget may
     * stop it after a round.
     */
    method ActiveExpireCycle(samplesPerLoop: nat, timed: bool, now: int) returns (removed: nat)
      requires Valid()
      modifies this, lru
      ensures Valid() && memoryLimit == old(memoryLimit) && policy == old(policy)
      ensures View(now) == old(View(now)) && data.Keys <= old(data.Keys)
      ensures removed == |old(data)| - |data| && expiredKeys == old(expiredKeys) + removed
      ensures forall k :: k in old(data) && k !in data ==> k !in old(View(now))
      ensures !timed && samplesPerLoop > 0 && old(AllVolatileExpired(now)) ==> volatileKeys == []
      ensures forall i :: 0 <= i < |lru| ==> lru[i] in old(lru)
      ensures memoryUsed <= old(memoryUsed)
      ensures Recency() == Kept(old(Recency()), data.Keys)
    {
      hide Linked, Accounted, View, AllVolatileExpired, Recency, Kept;
      removed := 0;
      AllKept();
      while volatileKeys != []
        invariant Recency() == Kept(old(Recency()), data.Keys)
        invariant Valid() && View(now) == old(View(now))
        invariant memoryLimit == old(memoryLimit) && policy == old(policy)
        invariant data.Keys <= old(data.Keys) && removed == |old(data)| - |data|
        invariant expiredKeys == old(expiredKeys) + removed
        invariant old(AllVolatileExpired(now)) ==> AllVolatileExpired(now)
        invariant forall i :: 0 <= i < |lru| ==> lru[i] in old(lru)
        invariant memoryUsed <= old(memoryUsed)
        decreases |volatileKeys|
      {
        ghost var before := data.Keys;
        var sampled, expired := SampleRound(samplesPerLoop, now);
        KeptTwice(old(Recency()), before, data.Keys);
        removed := removed + expired;
        expiredKeys := expiredKeys + expired;
        if expired * 4 <= sampled {
          break;
        }
        var overBudget: bool := *;
        if timed && overBudget {
          break;
        }
      }
      StoredKeys(now);
    }

    // -------------------------------------------------------------
    // Eviction
    // -------------------------------------------------------------

    /** Evicts the least recently used node. */
    method EvictTail() returns (victim: Node)
      requires Valid() && lru != []
      modifies `data, `lru, `volatileKeys, `memoryUsed, `evictedKeys, lru`volatileIndex, lru`expiresAtMs
      ensures Valid()
      ensures victim == old(lru[|lru| - 1]) && lru == old(lru[..|lru| - 1])
      ensures memoryUsed == old(memoryUsed) - victim.memory
      ensures Contents() == old(Contents()) - {victim.key}
      ensures evictedKeys == old(evictedKeys) + 1
      ensures data.Keys <= old(data.Keys)
    {
      hide Mirrors, Indexed, Sum, Weights, Without, Contents, EntryCost, Charged, Ranked;
      victim := lru[|lru| - 1];
      TailWeight(lru, tick);
      Erase(victim);
      evictedKeys := evictedKeys + 1;
    }

    /**
     * Evicts from the tail of the recency list until usage is within the limit. `kept` is
     * the number of nodes left: the shortest suffix has been removed, and it is reported
     * tail first. Every victim was last used before every survivor.
     */
    method EvictIfNeeded() returns (withinLimit: bool, evicted: seq<string>, ghost kept: nat)
      requires Valid()
      modifies this, lru
      ensures Valid() && memoryLimit == old(memoryLimit) && policy == old(policy)
      ensures kept <= |old(lru)| && lru == old(lru)[..kept] && evicted == TailFirst(old(lru), kept)
      ensures memoryUsed == old(Usages(lru))[kept]
      ensures forall j :: kept < j <= |old(lru)| ==> old(Usages(lru))[j] > memoryLimit > 0
      ensures memoryUsed <= old(memoryUsed) && (evicted == [] ==> memoryUsed == old(memoryUsed))
      ensures withinLimit <==> memoryLimit == 0 || memoryUsed <= memoryLimit
      ensures policy == AllKeysLru ==> withinLimit
      ensures policy == NoEviction || memoryLimit == 0 ==> evicted == []
      ensures Contents() == old(Contents()) - ToSet(evicted)
      ensures evictedKeys == old(evictedKeys) + |evicted|
      ensures forall i, j :: 0 <= i < kept <= j < |old(lru)| ==> old(lru[i].stamp) > old(lru[j].stamp)
      ensures data.Keys <= old(data.Keys) && forall k :: k in evicted ==> k in old(data.Keys)
      ensures evicted == old(Victims(memoryLimit))
    {
      hide Accounted, Contents, ToSet, TailFirst, Usages, Linked, KeptCount;
      ghost var before := lru;
      StampsDescend();
      VictimsStored();
      ContentsKeys();
      if memoryLimit == 0 {
        NoneEvicted(lru);
        UsageIsTotal();
        NothingRemoved(Contents());
        return true, [], |lru|;
      }
      withinLimit, evicted, kept := EvictDown();
      ContentsKeys();
      if policy == AllKeysLru {
        KeptIs(before, memoryLimit, kept);
      }
    }

    /** The keys that eviction at a limit removes: the shortest tail of the recency list, last one first. */
    ghost function Victims(limit: nat): seq<string>
      reads `lru, `policy, lru`memory
    {
      if policy == NoEviction || limit == 0 then [] else TailFirst(lru, KeptCount(lru, limit))
    }

    lemma StampsDescend()
      requires Linked()
      ensures forall i, j :: 0 <= i < j < |lru| ==> lru[i].stamp > lru[j].stamp
    {
      hide Mirrors, Indexed, Sum, Weights;
    }

    lemma VictimsStored()
      requires Linked()
      ensures forall kept: nat, k :: kept <= |lru| && k in TailFirst(lru, kept) ==> k in data.Keys
    {
      hide Ranked, Indexed, Sum, Weights;
      forall kept: nat, k | kept <= |lru| && k in TailFirst(lru, kept) ensures k in data.Keys {
        var j :| 0 <= j < |lru| - kept && TailFirst(lru, kept)[j] == k;
        assert lru[|lru| - 1 - j].key == k;
      }
    }

    lemma ContentsKeys()
      ensures Contents().Keys == data.Keys
    {
    }

    lemma UsageIsTotal()
      requires Linked()
      ensures memoryUsed == Usages(lru)[|lru|]
      ensures forall j :: 0 <= j < |lru| ==> Usages(lru)[j + 1] == Usages(lru)[j] + lru[j].memory
    {
      hide Mirrors, Ranked, Indexed, Sum, Weights, Usages;
      UsagesAre(lru);
    }

    /** The loop of evictIfNeeded. */
    method EvictDown() returns (withinLimit: bool, evicted: seq<string>, ghost kept: nat)
      requires Valid() && memoryLimit > 0
      modifies `data, `lru, `volatileKeys, `memoryUsed, `evictedKeys, lru`volatileIndex, lru`expiresAtMs
      ensures Valid()
      ensures kept <= |old(lru)| && lru == old(lru)[..kept] && evicted == TailFirst(old(lru), kept)
      ensures memoryUsed == old(Usages(lru))[kept]
      ensures forall j :: kept < j <= |old(lru)| ==> old(Usages(lru))[j] > memoryLimit
      ensures memoryUsed <= old(memoryUsed) && (evicted == [] ==> memoryUsed == old(memoryUsed))
      ensures withinLimit <==> memoryUsed <= memoryLimit
      ensures policy == AllKeysLru ==> withinLimit
      ensures policy == NoEviction ==> evicted == []
      ensures Contents() == old(Contents()) - ToSet(evicted)
      ensures evictedKeys == old(evictedKeys) + |evicted|
    {
      hide Accounted, Contents, ToSet, TailFirst, Usages, Linked;
      ghost var usages := Usages(lru);
      kept := |lru|;
      evicted := [];
      NoneEvicted(lru);
      UsageIsTotal();
      NothingRemoved(Contents());
      while memoryUsed > memoryLimit && !(policy == NoEviction || lru == [])
        invariant Valid()
        invariant kept <= |old(lru)| && lru == old(lru)[..kept] && evicted == TailFirst(old(lru), kept)
        invariant memoryUsed == usages[kept]
        invariant memoryUsed <= old(memoryUsed) && (evicted == [] ==> memoryUsed == old(memoryUsed))
        invariant forall j :: kept < j <= |old(lru)| ==> usages[j] > memoryLimit
        invariant policy == NoEviction ==> evicted == []
        invariant Contents() == old(Contents()) - ToSet(evicted)
        invariant evictedKeys == old(evictedKeys) + |evicted|
        decreases kept
      {
        OneMoreEvicted(old(lru), kept - 1);
        RemoveOneMore(old(Contents()), evicted, lru[kept - 1].key);
        var victim := EvictTail();
        evicted := evicted + [victim.key];
        kept := kept - 1;
      }
      return memoryUsed <= memoryLimit, evicted, kept;
    }
  }

  /** Usage with only the first j nodes of a list, for every j. */
  ghost function Usages(nodes: seq<Node>): (u: seq<nat>)
    reads nodes`memory
    ensures |u| == |nodes| + 1 && u[0] == 0
  {
    if nodes == [] then [0]
    else
      var u := Usages(nodes[..|nodes| - 1]);
      u + [u[|nodes| - 1] + nodes[|nodes| - 1].memory]
  }

  lemma SumOfLast(nodes: seq<Node>)
    requires nodes != []
    ensures Sum(Weights(nodes)) == Sum(Weights(nodes[..|nodes| - 1])) + nodes[|nodes| - 1].memory
  {
    hide Sum;
    var last := nodes[|nodes| - 1].memory;
    assert Weights(nodes) == Weights(nodes[..|nodes| - 1]) + [last];
    SumAppend(Weights(nodes[..|nodes| - 1]), [last]);
    SumOne(last);
  }

  /** The last usage is the whole, and each one is the one before and one more node. */
  lemma {:induction false} UsagesAre(nodes: seq<Node>)
    ensures Usages(nodes)[|nodes|] == Sum(Weights(nodes))
    ensures forall j :: 0 <= j < |nodes| ==> Usages(nodes)[j + 1] == Usages(nodes)[j] + nodes[j].memory
  {
    hide Sum, Weights;
    if nodes == [] {
      EmptyWeighsNothing(nodes);
    } else {
      UsagesAre(nodes[..|nodes| - 1]);
      SumOfLast(nodes);
    }
  }

  /** The most nodes of a list, counted from its front, whose usage is within a limit. */
  ghost function KeptCount(nodes: seq<Node>, limit: nat): (kept: nat)
    reads nodes`memory
    ensures kept <= |nodes|
  {
    if nodes == [] then 0
    else if Usages(nodes)[|nodes|] <= limit then |nodes|
    else KeptCount(nodes[..|nodes| - 1], limit)
  }

  lemma {:induction false} KeptIs(nodes: seq<Node>, limit: nat, kept: nat)
    requires kept <= |nodes| && Usages(nodes)[kept] <= limit
    requires forall j :: kept < j <= |nodes| ==> Usages(nodes)[j] > limit
    ensures KeptCount(nodes, limit) == kept
  {
    if kept < |nodes| {
      var init := nodes[..|nodes| - 1];
      assert forall j :: 0 <= j <= |init| ==> Usages(init)[j] == Usages(nodes)[j];
      KeptIs(init, limit, kept);
    }
  }

  /** The keys of a list from position `kept` on, last one first. */
  ghost function TailFirst(nodes: seq<Node>, kept: nat): (r: seq<string>)
    requires kept <= |nodes|
    ensures |r| == |nodes| - kept
    ensures forall j :: 0 <= j < |r| ==> r[j] == nodes[|nodes| - 1 - j].key
  {
    seq(|nodes| - kept, j requires 0 <= j < |nodes| - kept => nodes[|nodes| - 1 - j].key)
  }

  lemma NoneEvicted(nodes: seq<Node>)
    ensures TailFirst(nodes, |nodes|) == [] && nodes[..|nodes|] == nodes
  {
  }

  lemma OneMoreEvicted(nodes: seq<Node>, kept: nat)
    requires kept < |nodes|
    ensures TailFirst(nodes, kept) == TailFirst(nodes, kept + 1) + [nodes[kept].key]
  {
  }

  lemma EmptyWeighsNothing(lru: seq<Node>)
    ensures lru == [] ==> Sum(Weights(lru)) == 0
  {
  }

  /** Removing the tail node leaves the list without its last element, that much lighter. */
  lemma TailWeight(lru: seq<Node>, tick: nat)
    requires Ranked(lru, tick) && lru != []
    ensures var n := |lru| - 1;
            Without(lru, lru[n]) == lru[..n] && Sum(Weights(lru[..n])) == Sum(Weights(lru)) - lru[n].memory
  {
    hide Sum, Without;
    RankedDistinct(lru, tick);
    var n := |lru| - 1;
    WithoutAt(lru, n);
    assert lru[..n] + lru[n + 1..] == lru[..n];
    RemovedWeight(lru, lru[n]);
  }

  lemma NothingRemoved(ks: Keyspace)
    ensures ks - ToSet([]) == ks && ToSet([]) == {}
  {
  }

  lemma RemoveOneMore(ks: Keyspace, keys: seq<string>, key: string)
    ensures ks - ToSet(keys) - {key} == ks - ToSet(keys + [key])
  {
  }

  lemma KeysMinus(data: map<string, Node>, key: string)
    ensures (data - {key}).Keys == data.Keys - {key}
  {
  }

  lemma MinusOneKey(data: map<string, Node>, key: string)
    requires key in data
    ensures |data - {key}| == |data| - 1
  {
    assert data.Keys == (data - {key}).Keys + {key};
  }

  lemma SubsetSize(a: set<string>, b: set<string>)
    requires a <= b
    ensures |a| <= |b| && (|a| == |b| <==> a == b)
  {
    assert b == a + (b - a);
    if |a| == |b| {
      assert b - a == {};
    }
  }
}
