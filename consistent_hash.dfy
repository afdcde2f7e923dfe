/**
 * The `ConsistentHash` class of consistent_hash.py: a ring object whose
 * methods update its fields in place. Each method is proved to leave the
 * fields as the matching function of ring.dfy says, and to keep the ring
 * invariant `RingInv` (packaged here as `Valid()`).
 */
module ConsistentHashing {
  import opened Seqs
  import opened Hashing
  import opened Lookup
  import opened FlatMaps
  import opened RingSpec
  import opened RingProps

  class ConsistentHash {
    /** The digest `_hash_digest` computes (MD5 of the UTF-8 encoding in the source). */
    const digest: Hasher

    var keys: seq<nat>
    var keyNode: map<nat, string>
    var nodes: seq<string>
    var index: int
    var weights: map<string, nat>

    /** The fields, as a value. */
    function State(): Ring
      reads this
    {
      Ring(keys, keyNode, nodes, weights, index)
    }

    ghost predicate Valid()
      reads this
    {
      RingInv(digest, State())
    }

    /** The field initialisation of `__init__`: an empty ring. */
    constructor Init(h: Hasher)
      ensures digest == h && State() == EmptyRing && Valid()
    {
      digest := h;
      keys := [];
      keyNode := map[];
      nodes := [];
      index := 0;
      weights := map[];
    }

    /**
     * `ConsistentHash(objects)`: an empty ring, then `add_nodes(objects)`.
     * A `TypeError` from `add_nodes` means no object is made.
     */
    static method Create(h: Hasher, objects: Objects) returns (outcome: Result<ConsistentHash>)
      ensures outcome.TypeError? <==> objects.Other?
      ensures outcome.TypeError? ==> outcome.message == IngestTypeMessage
      ensures outcome.Ok? ==>
        && fresh(outcome.value) && outcome.value.digest == h
        && outcome.value.State() == Add(h, EmptyRing, objects).value
        && Coherent(outcome.value.State())
        && (Distinct(Names(objects)) ==> outcome.value.Valid())
    {
      var ring := new ConsistentHash.Init(h);
      assert ring.nodes + Names(objects) == Names(objects);
      var added := ring.AddNodes(objects);
      match added
      case TypeError(message) =>
        outcome := TypeError(message);
      case Ok(_) =>
        outcome := Ok(ring);
    }

    /** `_ingest_objects`: append the nodes, record a dict's weights, or raise `TypeError`. */
    method IngestObjects(objects: Objects) returns (outcome: Result<()>)
      modifies this
      ensures Ingest(old(State()), objects).TypeError? ==>
        outcome == TypeError(IngestTypeMessage) && State() == old(State())
      ensures Ingest(old(State()), objects).Ok? ==>
        outcome == Ok(()) && State() == Ingest(old(State()), objects).value
    {
      match objects
      case Dict(entries) =>
        nodes := nodes + DictKeys(entries);
        weights := Update(weights, entries);
        outcome := Ok(());
      case List(items) =>
        nodes := nodes + items;
        outcome := Ok(());
      case Str(node) =>
        nodes := nodes + [node];
        outcome := Ok(());
      case Null =>
        outcome := Ok(());
      case Other =>
        outcome := TypeError(IngestTypeMessage);
    }

    /**
     * `_generate_ring(start)`: for every node of `nodes[start:]`, map the
     * node's positions to it and append them to `keys`.
     */
    method GenerateRing(start: nat)
      requires start <= |nodes|
      modifies this
      ensures State() == Generate(digest, old(State()), start)
    {
      var i := start;
      while i < |nodes|
        invariant start <= i <= |nodes|
        invariant nodes == old(nodes) && weights == old(weights) && index == old(index)
        invariant keys == old(keys) + Flatten(digest, weights, nodes[start..i])
        invariant keyNode == Assign(digest, weights, old(keyNode), nodes[start..i])
      {
        PlaceNext(digest, weights, old(keys), old(keyNode), nodes, start, i);
        PlaceNode(nodes[i], NodeKeys(digest, weights, nodes[i]));
        i := i + 1;
      }
      assert nodes[start..i] == old(nodes)[start..];
    }

    /**
     * The inner loop of `_generate_ring` for one node and its positions
     * `ks`: for every position, `key_node[key] = node` and
     * `keys.append(key)`.
     */
    method PlaceNode(node: string, ks: seq<nat>)
      modifies this
      ensures nodes == old(nodes) && weights == old(weights) && index == old(index)
      ensures keys == old(keys) + ks
      ensures keyNode == old(keyNode) + Claim(ks, node)
    {
      var j := 0;
      while j < |ks|
        invariant 0 <= j <= |ks|
        invariant nodes == old(nodes) && weights == old(weights) && index == old(index)
        invariant keys == old(keys) + ks[..j]
        invariant keyNode == old(keyNode) + Claim(ks[..j], node)
      {
        ClaimStep(old(keyNode), ks, j, node);
        keyNode := keyNode[ks[j] := node];
        assert ks[..j + 1] == ks[..j] + [ks[j]];
        keys := keys + [ks[j]];
        j := j + 1;
      }
      assert ks[..j] == ks;
    }

    /**
     * `add_nodes`: ingest, generate the positions of the new nodes from
     * `index`, set `index` to `get_nodes_count()`, sort `keys`. A `TypeError`
     * leaves the ring untouched; adding nodes not yet registered keeps the
     * ring invariant.
     */
    method AddNodes(objects: Objects) returns (outcome: Result<()>)
      requires 0 <= index <= |nodes|
      modifies this
      ensures outcome.TypeError? <==> objects.Other?
      ensures outcome.TypeError? ==> outcome.message == IngestTypeMessage && State() == old(State())
      ensures outcome.Ok? ==> State() == Add(digest, old(State()), objects).value
      ensures old(index) == old(|nodes|) && old(Coherent(State())) ==> Coherent(State())
      ensures old(Valid()) && (objects.Other? || Distinct(old(nodes) + Names(objects))) ==> Valid()
    {
      ghost var before := State();
      outcome := IngestObjects(objects);
      if outcome.TypeError? {
        return;
      }
      PlaceNew();
      if before.index == |before.nodes| && Coherent(before) {
        AddCoherent(digest, before, objects);
      }
      if RingInv(digest, before) && Distinct(before.nodes + Names(objects)) {
        AddKeepsInv(digest, before, objects);
      }
    }

    /**
     * The rest of `add_nodes` once the objects are ingested: generate the
     * positions of `nodes[index:]`, set `index` to `get_nodes_count()`,
     * sort `keys`.
     */
    method PlaceNew()
      requires 0 <= index <= |nodes|
      modifies this
      ensures State() == Place(digest, old(State()))
    {
      GenerateRing(index);
      index := GetNodesCount();
      keys := Sort(keys);
    }

    /**
     * `remove_nodes`: only a list is accepted; each listed node that is
     * registered loses its positions (one `keys.remove` and one
     * `del key_node[...]` per position), its entry in `nodes`, its weight,
     * and one from `index`. Identifiers not registered are skipped. On a
     * ring whose positions are all different, none of the removals can
     * fail, and the ring invariant is kept.
     */
    method RemoveNodes(objects: Objects) returns (outcome: Result<()>)
      requires Valid() && Distinct(keys)
      modifies this
      ensures outcome.TypeError? <==> !objects.List?
      ensures outcome.TypeError? ==> outcome.message == RemoveTypeMessage && State() == old(State())
      ensures outcome.Ok? ==> State() == Remove(digest, old(State()), objects).value
      ensures Valid() && Distinct(keys)
    {
      if !objects.List? {
        return TypeError(RemoveTypeMessage);
      }
      var ids := objects.items;
      var i := 0;
      while i < |ids|
        invariant 0 <= i <= |ids|
        invariant State() == RemoveList(digest, old(State()), ids[..i])
      {
        RemoveListKeepsInv(digest, old(State()), ids[..i]);
        RemoveNode(ids[i]);
        RemoveListStep(digest, old(State()), ids, i);
        i := i + 1;
      }
      assert ids[..i] == ids;
      RemoveListKeepsInv(digest, old(State()), ids);
      outcome := Ok(());
    }

    /**
     * The body of the `remove_nodes` loop for one identifier: skipped when
     * not registered, otherwise removed without any `ValueError` or
     * `KeyError` on a ring whose positions are all different.
     */
    method RemoveNode(node: string)
      requires Valid() && Distinct(keys)
      modifies this
      ensures State() == RemoveOne(digest, old(State()), node)
    {
      if node in nodes {
        ghost var before := State();
        RemovablePositions(digest, before, node);
        DropNode(node, NodeKeys(digest, weights, node));
        RemoveOneFields(digest, before, node, State());
      }
    }

    /**
     * The removal of a registered `node` whose
     * positions `ks` are all in `keys` and `key_node`: drop the positions,
     * the node, its weight, and one from `index`.
     */
    method DropNode(node: string, ks: seq<nat>)
      requires multiset(ks) <= multiset(keys) && Distinct(ks)
      requires forall k :: k in ks ==> k in keyNode
      modifies this
      ensures keys == RemoveAll(old(keys), ks) && keyNode == old(keyNode) - Elems(ks)
      ensures nodes == RemoveFirst(old(nodes), node)
      ensures weights == Forget(old(weights), node) && index == old(index) - 1
    {
      RemoveKeys(ks);
      nodes := RemoveFirst(nodes, node);
      if node in weights {
        weights := weights - {node};
      }
      index := index - 1;
    }

    /**
     * The inner loop of `remove_nodes` over the positions `ks` of one node:
     * `keys.remove(key)` and `del key_node[key]` for each. When every
     * position is present (no `ValueError`, no `KeyError`), exactly those
     * positions leave `keys` and `key_node`.
     */
    method RemoveKeys(ks: seq<nat>)
      requires multiset(ks) <= multiset(keys) && Distinct(ks)
      requires forall k :: k in ks ==> k in keyNode
      modifies this
      ensures nodes == old(nodes) && weights == old(weights) && index == old(index)
      ensures keys == RemoveAll(old(keys), ks)
      ensures keyNode == old(keyNode) - Elems(ks)
    {
      var kept, owners := keys, keyNode;
      var j := 0;
      while j < |ks|
        invariant 0 <= j <= |ks|
        invariant kept == RemoveAll(old(keys), ks[..j])
        invariant owners == old(keyNode) - Elems(ks[..j])
        invariant unchanged(this)
      {
        RemoveStep(old(keys), old(keyNode), ks, j);
        kept := RemoveFirst(kept, ks[j]);
        owners := owners - {ks[j]};
        j := j + 1;
      }
      assert ks[..j] == ks;
      keys, keyNode := kept, owners;
    }

    /** `get_nodes_count`: the number of registered nodes, which is `index` on a valid ring. */
    function GetNodesCount(): (n: nat)
      reads this
      ensures n == |nodes|
      ensures Valid() ==> n == index
    {
      |nodes|
    }

    /**
     * `get_node_pos`: `None` on an empty ring, otherwise `bisect.bisect`
     * of the hashed key over `keys`, wrapped to 0 past the end.
     */
    method GetNodePos(key: string) returns (pos: Option<nat>)
      requires Sorted(keys)
      ensures pos == NodePos(State(), GenKey(digest, key))
      ensures pos.None? <==> |keyNode| == 0
      ensures pos.Some? && Coherent(State()) ==> pos.value < |keys|
    {
      if |keyNode| == 0 {
        return None;
      }
      var k := GenKey(digest, key);
      var p := BisectRight(keys, k);
      pos := Some(if p == |keys| then 0 else p);
    }

    /** `get_node`: the node owning the position `get_node_pos` chooses, or `None`. */
    method GetNode(key: string) returns (owner: Option<string>)
      requires Sorted(keys) && Coherent(State())
      ensures owner == Owner(State(), GenKey(digest, key))
      ensures owner.None? <==> |keyNode| == 0
      ensures owner.Some? && Valid() ==> owner.value in nodes
    {
      var pos := GetNodePos(key);
      match pos
      case None =>
        owner := None;
      case Some(p) =>
        owner := Some(keyNode[keys[p]]);
        if Valid() {
          OwnerRegistered(digest, State(), GenKey(digest, key));
        }
    }
  }

  /** The fields `remove_nodes` leaves after removing a registered node. */
  lemma RemoveOneFields(h: Hasher, r: Ring, node: string, r': Ring)
    requires node in r.nodes
    requires r'.keys == RemoveAll(r.keys, NodeKeys(h, r.weights, node))
    requires r'.keyNode == r.keyNode - Elems(NodeKeys(h, r.weights, node))
    requires r'.nodes == RemoveFirst(r.nodes, node)
    requires r'.weights == Forget(r.weights, node) && r'.index == r.index - 1
    ensures r' == RemoveOne(h, r, node)
  {
  }

  /** One more pass of the `remove_nodes` loop removes the next identifier. */
  lemma RemoveListStep(h: Hasher, r: Ring, ids: seq<string>, i: nat)
    requires i < |ids|
    ensures RemoveList(h, r, ids[..i + 1]) == RemoveOne(h, RemoveList(h, r, ids[..i]), ids[i])
  {
    assert ids[..i + 1][..i] == ids[..i];
  }

  /** One more write of `_generate_ring`'s inner loop extends the claimed prefix. */
  lemma ClaimStep(m: map<nat, string>, ks: seq<nat>, j: nat, node: string)
    requires j < |ks|
    ensures (m + Claim(ks[..j], node))[ks[j] := node] == m + Claim(ks[..j + 1], node)
  {
    assert ks[..j + 1] == ks[..j] + [ks[j]];
  }

  /** One more pass of `_generate_ring`'s outer loop places the next node. */
  lemma PlaceNext(h: Hasher, w: map<string, nat>, keys: seq<nat>, m: map<nat, string>,
                  ns: seq<string>, start: nat, i: nat)
    requires start <= i < |ns|
    ensures keys + Flatten(h, w, ns[start..i + 1])
         == (keys + Flatten(h, w, ns[start..i])) + NodeKeys(h, w, ns[i])
    ensures Assign(h, w, m, ns[start..i + 1])
         == Assign(h, w, m, ns[start..i]) + Claim(NodeKeys(h, w, ns[i]), ns[i])
  {
    SnocStep(KeysOf(h, w), m, ns, start, i);
  }

  /**
   * One more pass of `remove_nodes`' inner loop: the next position is still
   * in `keys` and `key_node`, and removing it extends the removed prefix.
   */
  lemma RemoveStep(keys: seq<nat>, m: map<nat, string>, ks: seq<nat>, j: nat)
    requires j < |ks| && multiset(ks) <= multiset(keys) && Distinct(ks)
    requires forall k :: k in ks ==> k in m
    ensures ks[j] in RemoveAll(keys, ks[..j]) && ks[j] in m - Elems(ks[..j])
    ensures RemoveFirst(RemoveAll(keys, ks[..j]), ks[j]) == RemoveAll(keys, ks[..j + 1])
    ensures (m - Elems(ks[..j])) - {ks[j]} == m - Elems(ks[..j + 1])
  {
    RemoveAllPresent(keys, ks, j);
    DistinctFresh(ks, j);
    RemoveAllStep(keys, ks, j);
    ElemsStep(ks, j);
  }
}
