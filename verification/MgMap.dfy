/** The address map: a flat byte array of nodes, each a 32-bit key and a value, searched
    from the front; key 0 marks a free node; a full array is doubled. */
module MgMap {
  import opened Bits

  type Value = seq<Byte>

  datatype Node = Node(key: nat, value: Value)

  function Zeros(n: nat): (r: Value)
    ensures |r| == n && forall i | 0 <= i < n :: r[i] == 0
  {
    seq(n, _ => 0)
  }

  // ---------------------------------------------------- the operations on nodes

  /** The first node with this key, or the number of nodes. */
  function Find(nodes: seq<Node>, key: nat): (r: nat)
    ensures r <= |nodes|
    ensures r < |nodes| ==> nodes[r].key == key
    ensures forall i | 0 <= i < r :: nodes[i].key != key
  {
    if nodes == [] then 0
    else
      var r := Find(nodes[..|nodes| - 1], key);
      if r == |nodes| - 1 && nodes[r].key != key then |nodes| else r
  }

  function Fresh(count: nat, valueSize: nat): (r: seq<Node>)
    ensures |r| == count && forall i | 0 <= i < count :: r[i] == Node(0, Zeros(valueSize))
  {
    seq(count, _ => Node(0, Zeros(valueSize)))
  }

  /** mg_map_add: the first free node, or the first of the new half. */
  function Added(nodes: seq<Node>, key: nat, v: Value): seq<Node>
    requires |nodes| >= 1
  {
    var i := Find(nodes, 0);
    if i < |nodes| then nodes[i := Node(key, v)]
    else (nodes + Fresh(|nodes|, |v|))[i := Node(key, v)]
  }

  /** mg_map_set. */
  function Stored(nodes: seq<Node>, key: nat, v: Value): seq<Node>
    requires |nodes| >= 1
  {
    var i := Find(nodes, key);
    if i < |nodes| then nodes[i := Node(key, v)] else Added(nodes, key, v)
  }

  /** mg_map_del. */
  function Deleted(nodes: seq<Node>, key: nat): seq<Node> {
    var i := Find(nodes, key);
    if i < |nodes| then nodes[i := Node(0, Zeros(|nodes[i].value|))] else nodes
  }

  // -------------------------------------------------------- as a finite map

  ghost predicate Distinct(nodes: seq<Node>) {
    forall i, j | 0 <= i < j < |nodes| :: nodes[i].key != 0 ==> nodes[i].key != nodes[j].key
  }

  /** The nodes hold exactly the map's entries. */
  ghost predicate Represents(nodes: seq<Node>, m: map<nat, Value>) {
    && (forall k | k in m :: k != 0 && Find(nodes, k) < |nodes| && nodes[Find(nodes, k)].value == m[k])
    && (forall i | 0 <= i < |nodes| :: nodes[i].key != 0 ==> nodes[i].key in m)
  }

  ghost predicate Inv(nodes: seq<Node>, m: map<nat, Value>) {
    |nodes| >= 1 && Distinct(nodes) && Represents(nodes, m)
  }

  lemma FindIs(nodes: seq<Node>, key: nat, i: nat)
    requires i < |nodes| && nodes[i].key == key && (forall j | 0 <= j < i :: nodes[j].key != key)
    ensures Find(nodes, key) == i
  {
  }

  /** Writing one node changes the search for its old and its new key only. */
  lemma FindOther(nodes: seq<Node>, i: nat, node: Node, k: nat)
    requires i < |nodes| && nodes[i].key != k && node.key != k
    ensures Find(nodes[i := node], k) == Find(nodes, k)
  {
    var r := Find(nodes, k);
    if r < |nodes| {
      FindIs(nodes[i := node], k, r);
    }
  }

  /** So does growing the array. */
  lemma FindGrown(nodes: seq<Node>, n: nat, valueSize: nat, k: nat)
    requires k != 0
    ensures var r := Find(nodes + Fresh(n, valueSize), k);
            r == if Find(nodes, k) < |nodes| then Find(nodes, k) else |nodes| + n
  {
    var r := Find(nodes, k);
    if r < |nodes| {
      FindIs(nodes + Fresh(n, valueSize), k, r);
    }
  }

  /** Replacing a free node, or the node of the key itself, is a map update. */
  lemma PutKeeps(nodes: seq<Node>, m: map<nat, Value>, i: nat, key: nat, v: Value)
    requires Inv(nodes, m) && key != 0 && i < |nodes|
    requires nodes[i].key == key || (nodes[i].key == 0 && key !in m)
    ensures Inv(nodes[i := Node(key, v)], m[key := v])
  {
    var r := nodes[i := Node(key, v)];
    forall j | 0 <= j < |nodes| && j != i
      ensures nodes[j].key != key
    {
    }
    FindIs(r, key, i);
    forall k | k in m && k != key
      ensures Find(r, k) == Find(nodes, k)
    {
      FindOther(nodes, i, Node(key, v), k);
    }
  }

  lemma GrowKeeps(nodes: seq<Node>, m: map<nat, Value>, n: nat, valueSize: nat)
    requires Inv(nodes, m)
    ensures Inv(nodes + Fresh(n, valueSize), m)
  {
    forall k | k in m
      ensures Find(nodes + Fresh(n, valueSize), k) == Find(nodes, k)
    {
      FindGrown(nodes, n, valueSize, k);
    }
  }

  /** Nothing but free nodes is written; the array is doubled only when it has none. */
  ghost predicate Reuses(nodes: seq<Node>, r: seq<Node>) {
    && |r| == (if exists i :: 0 <= i < |nodes| && nodes[i].key == 0 then |nodes| else 2 * |nodes|)
    && forall i | 0 <= i < |nodes| && nodes[i].key != 0 :: r[i] == nodes[i]
  }

  lemma AddPlaces(nodes: seq<Node>, key: nat, v: Value)
    requires |nodes| >= 1
    ensures Reuses(nodes, Added(nodes, key, v))
    ensures forall i | 0 <= i < |nodes| && nodes[i].key == 0 ::
              (forall j | 0 <= j < i :: nodes[j].key != 0) ==> Added(nodes, key, v) == nodes[i := Node(key, v)]
  {
    hide Fresh;
    var i := Find(nodes, 0);
    assert i == |nodes| <==> !exists j :: 0 <= j < |nodes| && nodes[j].key == 0;
  }

  /** Adding an absent key is a map update, in the first free node if there is one. */
  lemma AddKeeps(nodes: seq<Node>, m: map<nat, Value>, key: nat, v: Value)
    requires Inv(nodes, m) && key != 0 && key !in m
    ensures Inv(Added(nodes, key, v), m[key := v]) && Reuses(nodes, Added(nodes, key, v))
    ensures forall i | 0 <= i < |nodes| && nodes[i].key == 0 ::
              (forall j | 0 <= j < i :: nodes[j].key != 0) ==> Added(nodes, key, v) == nodes[i := Node(key, v)]
  {
    AddPlaces(nodes, key, v);
    hide Inv, Reuses;
    var i := Find(nodes, 0);
    if i < |nodes| {
      PutKeeps(nodes, m, i, key, v);
    } else {
      GrowKeeps(nodes, m, |nodes|, |v|);
      PutKeeps(nodes + Fresh(|nodes|, |v|), m, i, key, v);
    }
  }

  /** Adding keeps the keys distinct exactly when the key is absent. */
  lemma AddDistinctIff(nodes: seq<Node>, m: map<nat, Value>, key: nat, v: Value)
    requires Inv(nodes, m) && key != 0
    ensures Distinct(Added(nodes, key, v)) <==> key !in m
  {
    if key !in m {
      AddKeeps(nodes, m, key, v);
    } else {
      var (i, j, r) := (Find(nodes, 0), Find(nodes, key), Added(nodes, key, v));
      assert r[i].key == key && r[j].key == key && i != j;
    }
  }

  /** Setting a key is a map update, in its own node if it has one. */
  lemma SetKeeps(nodes: seq<Node>, m: map<nat, Value>, key: nat, v: Value)
    requires Inv(nodes, m) && key != 0
    ensures Inv(Stored(nodes, key, v), m[key := v])
    ensures if key in m then
              && |Stored(nodes, key, v)| == |nodes|
              && forall i | 0 <= i < |nodes| && nodes[i].key != key :: Stored(nodes, key, v)[i] == nodes[i]
            else Reuses(nodes, Stored(nodes, key, v))
  {
    var i := Find(nodes, key);
    if i < |nodes| {
      PutKeeps(nodes, m, i, key, v);
    } else {
      AddKeeps(nodes, m, key, v);
    }
  }

  /** Deleting a key removes it from the map: its node is all zeros, the others stay. */
  lemma DelKeeps(nodes: seq<Node>, m: map<nat, Value>, key: nat)
    requires Inv(nodes, m) && key != 0
    ensures Inv(Deleted(nodes, key), m - {key}) && |Deleted(nodes, key)| == |nodes|
    ensures forall i | 0 <= i < |nodes| ::
              Deleted(nodes, key)[i] == if nodes[i].key == key then Node(0, Zeros(|nodes[i].value|)) else nodes[i]
  {
    var i := Find(nodes, key);
    if i < |nodes| {
      var free := Node(0, Zeros(|nodes[i].value|));
      var r := nodes[i := free];
      forall k | k in m && k != key
        ensures Find(r, k) == Find(nodes, k)
      {
        FindOther(nodes, i, free, k);
      }
      forall j | 0 <= j < |r| && r[j].key != 0
        ensures r[j].key in m - {key}
      {
      }
    } else {
      assert m - {key} == m;
    }
  }

  // ---------------------------------------------------------------- all runs

  datatype Op = Set(key: nat, v: Value) | Del(key: nat) | Add(key: nat, v: Value)

  function Apply(nodes: seq<Node>, op: Op): (r: seq<Node>)
    requires |nodes| >= 1
    ensures |r| >= 1
  {
    if op.key == 0 then nodes
    else
      match op
      case Set(k, v) => Stored(nodes, k, v)
      case Del(k) => Deleted(nodes, k)
      case Add(k, v) => Added(nodes, k, v)
  }

  function Run(nodes: seq<Node>, ops: seq<Op>): (r: seq<Node>)
    requires |nodes| >= 1
    ensures |r| >= 1
  {
    if ops == [] then nodes else Apply(Run(nodes, ops[..|ops| - 1]), ops[|ops| - 1])
  }

  /** The same operations on a finite map. */
  function ApplyMap(m: map<nat, Value>, op: Op): map<nat, Value> {
    if op.key == 0 then m
    else
      match op
      case Set(k, v) => m[k := v]
      case Del(k) => m - {k}
      case Add(k, v) => m[k := v]
  }

  function RunMap(ops: seq<Op>): map<nat, Value> {
    if ops == [] then map[] else ApplyMap(RunMap(ops[..|ops| - 1]), ops[|ops| - 1])
  }

  /** Every add is of a key that is absent at that point. */
  ghost predicate AddsAbsent(ops: seq<Op>) {
    forall i | 0 <= i < |ops| && ops[i].Add? :: ops[i].key !in RunMap(ops[..i])
  }

  /** From a fresh map any such run keeps the keys distinct and refines a finite map. */
  lemma {:induction false} RefinesMap(count: nat, valueSize: nat, ops: seq<Op>)
    requires count >= 1 && AddsAbsent(ops)
    ensures Inv(Run(Fresh(count, valueSize), ops), RunMap(ops))
  {
    if ops != [] {
      var (n, op) := (|ops| - 1, ops[|ops| - 1]);
      assert forall i | 0 <= i < n && ops[..n][i].Add? :: ops[..n][..i] == ops[..i];
      RefinesMap(count, valueSize, ops[..n]);
      var (nodes, m) := (Run(Fresh(count, valueSize), ops[..n]), RunMap(ops[..n]));
      hide Inv, Find;
      if op.key != 0 {
        match op {
          case Set(k, v) => SetKeeps(nodes, m, k, v);
          case Del(k) => DelKeeps(nodes, m, k);
          case Add(k, v) => AddKeeps(nodes, m, k, v);
        }
      }
    }
  }

  /** mg_map_get on nodes. */
  function Got(nodes: seq<Node>, key: nat): seq<Value> {
    if key == 0 || Find(nodes, key) == |nodes| then [] else [nodes[Find(nodes, key)].value]
  }

  /** What a get returns after a run is what the map holds. */
  lemma GetAfterRun(count: nat, valueSize: nat, ops: seq<Op>, key: nat)
    requires count >= 1 && AddsAbsent(ops)
    ensures Got(Run(Fresh(count, valueSize), ops), key) == if key in RunMap(ops) then [RunMap(ops)[key]] else []
  {
    RefinesMap(count, valueSize, ops);
  }
}
