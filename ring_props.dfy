/**
 * What the ring operations of consistent_hash.py guarantee, proved about
 * the value-level model in ring.dfy.
 */
module RingProps {
  import opened Seqs
  import opened Hashing
  import opened Lookup
  import opened FlatMaps
  import opened RingSpec

  /** Placing two batches of nodes appends their positions batch after batch. */
  lemma FlattenAppend(h: Hasher, w: map<string, nat>, a: seq<string>, b: seq<string>)
    ensures Flatten(h, w, a + b) == Flatten(h, w, a) + Flatten(h, w, b)
  {
    FlatMapAppend(KeysOf(h, w), a, b);
  }

  /** Positions depend on the weights of the placed nodes only. */
  lemma FlattenFrame(h: Hasher, w1: map<string, nat>, w2: map<string, nat>, ns: seq<string>)
    requires forall n :: n in ns ==> Weight(w1, n) == Weight(w2, n)
    ensures Flatten(h, w1, ns) == Flatten(h, w2, ns)
  {
    forall n | n in ns ensures KeysOf(h, w1)(n) == KeysOf(h, w2)(n) {
      assert Weight(w1, n) == Weight(w2, n);
    }
    FlatMapFrame(KeysOf(h, w1), KeysOf(h, w2), ns);
  }

  /** Taking a registered node out takes exactly its positions out, as multisets. */
  lemma FlattenRemoveFirst(h: Hasher, w: map<string, nat>, ns: seq<string>, n: string)
    requires n in ns
    ensures multiset(Flatten(h, w, ns))
         == multiset(Flatten(h, w, RemoveFirst(ns, n))) + multiset(NodeKeys(h, w, n))
  {
    FlatMapRemoveFirst(KeysOf(h, w), ns, n);
  }

  /**
   * `_generate_ring`'s writes to `key_node`: a position is mapped afterwards
   * exactly when it was mapped before or some placed node generates it, and
   * a position no placed node generates keeps its old owner.
   */
  lemma AssignSpec(h: Hasher, w: map<string, nat>, m: map<nat, string>, ns: seq<string>)
    ensures forall k :: k in Assign(h, w, m, ns) <==> k in m || k in Flatten(h, w, ns)
    ensures forall k :: k in m && k !in Flatten(h, w, ns) ==> Assign(h, w, m, ns)[k] == m[k]
  {
    ClaimAllSpec(KeysOf(h, w), m, ns);
  }

  /**
   * `dict.update`: the keys afterwards, the values it leaves alone, and the
   * value it stores for a name, namely the one given by the name's last entry.
   */
  lemma {:induction false} UpdateSpec(w: map<string, nat>, entries: seq<(string, nat)>)
    ensures forall x :: x in Update(w, entries) <==> x in w || x in DictKeys(entries)
    ensures forall x :: x !in DictKeys(entries) && x in w ==> Update(w, entries)[x] == w[x]
    ensures forall i :: 0 <= i < |entries| && LastEntry(entries, i) ==>
      entries[i].0 in Update(w, entries) && Update(w, entries)[entries[i].0] == entries[i].1
  {
    if |entries| > 0 {
      UpdateSpec(w, entries[..|entries| - 1]);
      forall i | 0 <= i < |entries| - 1 && LastEntry(entries, i)
        ensures LastEntry(entries[..|entries| - 1], i)
      {
      }
    }
  }

  /** Entry `i` is the last one for its name (a dict keeps that one). */
  ghost predicate LastEntry(entries: seq<(string, nat)>, i: int)
    requires 0 <= i < |entries|
  {
    forall j :: i < j < |entries| ==> entries[j].0 != entries[i].0
  }

  /** The keys of a dict, one per entry, in insertion order. */
  lemma {:induction false} DictKeysSpec(entries: seq<(string, nat)>)
    ensures |DictKeys(entries)| == |entries|
    ensures forall i :: 0 <= i < |entries| ==> DictKeys(entries)[i] == entries[i].0
  {
    if |entries| > 0 {
      DictKeysSpec(entries[..|entries| - 1]);
    }
  }

  /** Ingesting records weights only for the ingested nodes. */
  lemma IngestedWeightsSpec(w: map<string, nat>, objects: Objects)
    ensures forall x :: x !in Names(objects) ==> Weight(IngestedWeights(w, objects), x) == Weight(w, x)
    ensures forall x :: x in IngestedWeights(w, objects) ==> x in w || x in Names(objects)
    ensures forall x :: x in w ==> x in IngestedWeights(w, objects)
    ensures forall x :: x in w && x !in Names(objects) ==> IngestedWeights(w, objects)[x] == w[x]
    ensures objects.Dict? ==> forall i :: 0 <= i < |objects.entries| && LastEntry(objects.entries, i) ==>
      var (name, weight) := objects.entries[i];
      name in IngestedWeights(w, objects) && IngestedWeights(w, objects)[name] == weight
  {
    if objects.Dict? {
      UpdateSpec(w, objects.entries);
    }
  }

  /**
   * `_generate_ring(start)` keeps the old positions as a prefix of `keys`
   * and changes no other field than `keys` and `key_node`. A position is
   * mapped afterwards exactly when it was mapped before or was just
   * appended; an appended position is owned by a node of `nodes[start:]`
   * that generates it, and any other position keeps its owner.
   */
  lemma GenerateSpec(h: Hasher, r: Ring, start: nat)
    requires start <= |r.nodes|
    ensures var r' := Generate(h, r, start);
      && r'.nodes == r.nodes && r'.weights == r.weights && r'.index == r.index
      && |r.keys| <= |r'.keys| && r'.keys[..|r.keys|] == r.keys
      && (forall k :: k in r'.keyNode <==> k in r.keyNode || k in r'.keys[|r.keys|..])
      && (forall k :: k in r'.keys[|r.keys|..] ==>
            r'.keyNode[k] in r.nodes[start..] && k in NodeKeys(h, r.weights, r'.keyNode[k]))
      && (forall n, k :: n in r.nodes[start..] && k in NodeKeys(h, r.weights, n) ==> k in r'.keys[|r.keys|..])
      && (forall k :: k in r.keyNode && k !in r'.keys[|r.keys|..] ==> r'.keyNode[k] == r.keyNode[k])
  {
    var ns := r.nodes[start..];
    var r' := Generate(h, r, start);
    assert r'.keys[|r.keys|..] == Flatten(h, r.weights, ns);
    AssignSpec(h, r.weights, r.keyNode, ns);
    forall k | k in Flatten(h, r.weights, ns)
      ensures r'.keyNode[k] in ns && k in NodeKeys(h, r.weights, r'.keyNode[k])
    {
      FreshOwner(h, r.weights, r.keyNode, ns, k);
    }
    forall n, k | n in ns && k in NodeKeys(h, r.weights, n) ensures k in Flatten(h, r.weights, ns) {
      FlatMapMember(KeysOf(h, r.weights), ns, n, k);
    }
  }

  /**
   * `add_nodes` on a ring satisfying the invariant, spelled out field by
   * field: the appended nodes `ns` are generated in order from `index`.
   */
  lemma AddShape(h: Hasher, r: Ring, objects: Objects)
    requires r.index == |r.nodes| && !objects.Other?
    ensures Add(h, r, objects).Ok?
    ensures var w' := IngestedWeights(r.weights, objects);
      Add(h, r, objects).value
        == Ring(Sort(r.keys + Flatten(h, w', Names(objects))),
                Assign(h, w', r.keyNode, Names(objects)),
                r.nodes + Names(objects), w', |r.nodes| + |Names(objects)|)
  {
    assert (r.nodes + Names(objects))[|r.nodes|..] == Names(objects);
  }

  /** After `add_nodes`, `keys` holds the old positions plus every position of the appended nodes. */
  lemma AddKeys(h: Hasher, r: Ring, objects: Objects)
    requires RingInv(h, r)
    requires !objects.Other? && Distinct(r.nodes + Names(objects))
    ensures Add(h, r, objects).Ok?
    ensures var r' := Add(h, r, objects).value;
      && multiset(r'.keys) == multiset(r.keys) + multiset(Flatten(h, r'.weights, Names(objects)))
      && multiset(r'.keys) == multiset(Flatten(h, r'.weights, r'.nodes))
  {
    var ns, w' := Names(objects), IngestedWeights(r.weights, objects);
    AddShape(h, r, objects);
    SortSpec(r.keys + Flatten(h, w', ns));
    DistinctAppend(r.nodes, ns);
    IngestedWeightsSpec(r.weights, objects);
    FlattenFrame(h, r.weights, w', r.nodes);
    FlattenAppend(h, w', r.nodes, ns);
  }

  /** After `add_nodes`, `key_node` is defined exactly on `keys`. */
  lemma AddCoherent(h: Hasher, r: Ring, objects: Objects)
    requires r.index == |r.nodes| && Coherent(r) && !objects.Other?
    ensures Add(h, r, objects).Ok? && Coherent(Add(h, r, objects).value)
  {
    var ns, w' := Names(objects), IngestedWeights(r.weights, objects);
    var added := Flatten(h, w', ns);
    var r' := Add(h, r, objects).value;
    AddShape(h, r, objects);
    SortSpec(r.keys + added);
    AssignSpec(h, w', r.keyNode, ns);
    forall k ensures k in r'.keyNode <==> k in r'.keys {
      calc {
        k in r'.keys;
        k in multiset(r'.keys);
        k in multiset(r.keys + added);
        k in r.keys + added;
      }
    }
  }

  /** After `add_nodes`, every position is mapped to a registered node generating it. */
  lemma AddOwnersGenerate(h: Hasher, r: Ring, objects: Objects)
    requires RingInv(h, r)
    requires !objects.Other? && Distinct(r.nodes + Names(objects))
    ensures Add(h, r, objects).Ok? && OwnersGenerate(h, Add(h, r, objects).value)
  {
    var ns, w' := Names(objects), IngestedWeights(r.weights, objects);
    var r' := Add(h, r, objects).value;
    AddShape(h, r, objects);
    DistinctAppend(r.nodes, ns);
    IngestedWeightsSpec(r.weights, objects);
    AssignSpec(h, w', r.keyNode, ns);
    forall k | k in r'.keyNode
      ensures r'.keyNode[k] in r'.nodes && k in NodeKeys(h, w', r'.keyNode[k])
    {
      if k in Flatten(h, w', ns) {
        FreshOwner(h, w', r.keyNode, ns, k);
      } else {
        var o := r.keyNode[k];
        assert o in r.nodes;
        assert o !in ns;
        assert Weight(w', o) == Weight(r.weights, o);
      }
    }
  }

  /** `add_nodes` of nodes not yet registered keeps the ring invariant. */
  lemma AddKeepsInv(h: Hasher, r: Ring, objects: Objects)
    requires RingInv(h, r)
    requires !objects.Other? && Distinct(r.nodes + Names(objects))
    ensures Add(h, r, objects).Ok? && RingInv(h, Add(h, r, objects).value)
  {
    AddShape(h, r, objects);
    AddKeys(h, r, objects);
    AddCoherent(h, r, objects);
    AddOwnersGenerate(h, r, objects);
    IngestedWeightsSpec(r.weights, objects);
  }

  /**
   * After `add_nodes`, every position of an appended node is mapped to an
   * appended node that generates it, and every earlier position keeps its
   * owner unless an appended node generates it too.
   */
  lemma AddOwners(h: Hasher, r: Ring, objects: Objects)
    requires RingInv(h, r)
    requires !objects.Other? && Distinct(r.nodes + Names(objects))
    ensures Add(h, r, objects).Ok?
    ensures var r' := Add(h, r, objects).value;
      && (forall k :: k in Flatten(h, r'.weights, Names(objects)) ==>
            k in r'.keyNode && r'.keyNode[k] in Names(objects)
            && k in NodeKeys(h, r'.weights, r'.keyNode[k]))
      && (forall k :: k in r.keyNode && k !in Flatten(h, r'.weights, Names(objects)) ==>
            k in r'.keyNode && r'.keyNode[k] == r.keyNode[k])
  {
    var ns, w' := Names(objects), IngestedWeights(r.weights, objects);
    AddShape(h, r, objects);
    AssignSpec(h, w', r.keyNode, ns);
    forall k | k in Flatten(h, w', ns)
      ensures k in Assign(h, w', r.keyNode, ns) && Assign(h, w', r.keyNode, ns)[k] in ns
      ensures k in NodeKeys(h, w', Assign(h, w', r.keyNode, ns)[k])
    {
      FreshOwner(h, w', r.keyNode, ns, k);
    }
  }

  /** A position generated by a placed node is owned by a placed node generating it. */
  lemma FreshOwner(h: Hasher, w: map<string, nat>, m: map<nat, string>, ns: seq<string>, k: nat)
    requires k in Flatten(h, w, ns)
    ensures k in Assign(h, w, m, ns) && Assign(h, w, m, ns)[k] in ns
    ensures k in NodeKeys(h, w, Assign(h, w, m, ns)[k])
  {
    ClaimAllOwner(KeysOf(h, w), m, ns, k);
  }

  /**
   * When `keys` holds the positions of `nodes`, removing the positions of a
   * registered node `n` one by one takes out exactly those positions and
   * leaves the positions of the other nodes.
   */
  lemma RemovedPositions(h: Hasher, w: map<string, nat>, keys: seq<nat>, nodes: seq<string>, n: string)
    requires multiset(keys) == multiset(Flatten(h, w, nodes)) && n in nodes
    ensures multiset(NodeKeys(h, w, n)) <= multiset(keys)
    ensures multiset(RemoveAll(keys, NodeKeys(h, w, n))) + multiset(NodeKeys(h, w, n)) == multiset(keys)
    ensures multiset(RemoveAll(keys, NodeKeys(h, w, n))) == multiset(Flatten(h, w, RemoveFirst(nodes, n)))
  {
    var ks := NodeKeys(h, w, n);
    FlattenRemoveFirst(h, w, nodes, n);
    RemoveAllSpec(keys, ks);
    MultisetCancel(multiset(RemoveAll(keys, ks)), multiset(Flatten(h, w, RemoveFirst(nodes, n))), multiset(ks));
  }

  /** Removing a registered node takes its positions out of `keys`, one occurrence each. */
  lemma RemoveOneKeys(h: Hasher, r: Ring, n: string)
    requires multiset(r.keys) == multiset(Flatten(h, r.weights, r.nodes))
    requires Sorted(r.keys) && Distinct(r.nodes) && n in r.nodes
    ensures var r' := RemoveOne(h, r, n);
      && multiset(r'.keys) + multiset(NodeKeys(h, r.weights, n)) == multiset(r.keys)
      && multiset(r'.keys) == multiset(Flatten(h, r'.weights, r'.nodes))
      && Sorted(r'.keys)
  {
    var ks := NodeKeys(h, r.weights, n);
    var rest := RemoveFirst(r.nodes, n);
    assert RemoveOne(h, r, n).keys == RemoveAll(r.keys, ks);
    assert RemoveOne(h, r, n).nodes == rest && RemoveOne(h, r, n).weights == Forget(r.weights, n);
    RemovedPositions(h, r.weights, r.keys, r.nodes, n);
    RemoveAllSorted(r.keys, ks);
    RemoveFirstDistinct(r.nodes, n);
    FlattenFrame(h, r.weights, Forget(r.weights, n), rest);
  }

  /**
   * One pass of the `remove_nodes` loop on ANY ring: an identifier not
   * registered changes nothing; a registered one loses one entry in `nodes`,
   * its weight and one from `index`, and its positions leave `key_node`.
   * The model is total: where the source would raise `ValueError` (a
   * position missing from `keys`) or `KeyError` (missing from `key_node`),
   * that position is skipped, so `keys` only ever shrinks.
   */
  lemma RemoveOneSpec(h: Hasher, r: Ring, n: string)
    ensures n !in r.nodes ==> RemoveOne(h, r, n) == r
    ensures n in r.nodes ==> var r' := RemoveOne(h, r, n);
      && multiset(r'.nodes) + multiset{n} == multiset(r.nodes)
      && r'.index == r.index - 1
      && n !in r'.weights
      && (forall m :: m in r.weights && m != n ==> m in r'.weights && r'.weights[m] == r.weights[m])
      && multiset(r'.keys) <= multiset(r.keys)
      && (forall k :: k in r'.keyNode <==> k in r.keyNode && k !in NodeKeys(h, r.weights, n))
      && (forall k :: k in r'.keyNode ==> r'.keyNode[k] == r.keyNode[k])
  {
    if n in r.nodes {
      var ks := NodeKeys(h, r.weights, n);
      assert RemoveOne(h, r, n).keys == RemoveAll(r.keys, ks);
      assert RemoveOne(h, r, n).nodes == RemoveFirst(r.nodes, n);
      RemoveFirstSpec(r.nodes, n);
      RemoveAllShrinks(r.keys, ks);
    }
  }

  /**
   * `remove_nodes(ids)` on a ring whose nodes are registered once: afterwards
   * no listed identifier is registered, every unlisted node still is, and
   * nodes are still registered once.
   */
  lemma {:induction false} RemoveListGone(h: Hasher, r: Ring, ids: seq<string>)
    requires Distinct(r.nodes)
    ensures Distinct(RemoveList(h, r, ids).nodes)
    ensures forall n :: n in ids ==> n !in RemoveList(h, r, ids).nodes
    ensures forall n :: n in r.nodes && n !in ids ==> n in RemoveList(h, r, ids).nodes
  {
    if |ids| > 0 {
      var init, x := ids[..|ids| - 1], ids[|ids| - 1];
      assert ids == init + [x];
      RemoveListGone(h, r, init);
      var r0 := RemoveList(h, r, init);
      var nodes' := RemoveList(h, r, ids).nodes;
      if x in r0.nodes {
        assert nodes' == RemoveFirst(r0.nodes, x);
        RemoveFirstDistinct(r0.nodes, x);
        RemoveFirstSpec(r0.nodes, x);
        forall n | n in init ensures n !in nodes' {
          assert multiset(nodes')[n] <= multiset(r0.nodes)[n];
        }
      } else {
        assert nodes' == r0.nodes;
      }
    }
  }

  /** With all positions different, removing a node leaves `key_node` defined exactly on `keys`. */
  lemma RemoveOneCoherent(h: Hasher, r: Ring, n: string)
    requires RingInv(h, r) && Distinct(r.keys) && n in r.nodes
    ensures Coherent(RemoveOne(h, r, n)) && Distinct(RemoveOne(h, r, n).keys)
  {
    var ks := NodeKeys(h, r.weights, n);
    var kept := RemoveAll(r.keys, ks);
    assert RemoveOne(h, r, n).keys == kept && RemoveOne(h, r, n).keyNode == r.keyNode - Elems(ks);
    RemoveOneKeys(h, r, n);
    DistinctSub(kept, r.keys);
    forall k ensures k in r.keyNode - Elems(ks) <==> k in kept {
      assert multiset(r.keys)[k] == multiset(kept)[k] + multiset(ks)[k];
      assert k in r.keys <==> multiset(r.keys)[k] > 0;
      assert k in ks <==> multiset(ks)[k] > 0;
    }
  }

  /**
   * On a ring whose positions are all different, every position of a
   * registered node is present once in `keys` (so `keys.remove` cannot
   * raise `ValueError`) and mapped in `key_node` (so `del` cannot raise
   * `KeyError`).
   */
  lemma RemovablePositions(h: Hasher, r: Ring, n: string)
    requires RingInv(h, r) && Distinct(r.keys) && n in r.nodes
    ensures multiset(NodeKeys(h, r.weights, n)) <= multiset(r.keys)
    ensures Distinct(NodeKeys(h, r.weights, n))
    ensures forall k :: k in NodeKeys(h, r.weights, n) ==> k in r.keyNode
  {
    var ks := NodeKeys(h, r.weights, n);
    RemoveOneKeys(h, r, n);
    DistinctSub(ks, r.keys);
    forall k | k in ks ensures k in r.keyNode {
      assert multiset(r.keys)[k] >= multiset(ks)[k] > 0;
    }
  }

  /** Removing a node leaves every position with a registered owner generating it. */
  lemma RemoveOneOwners(h: Hasher, r: Ring, n: string)
    requires RingInv(h, r) && n in r.nodes
    ensures OwnersGenerate(h, RemoveOne(h, r, n))
  {
    var ks := NodeKeys(h, r.weights, n);
    var r' := RemoveOne(h, r, n);
    assert r' == Ring(RemoveAll(r.keys, ks), r.keyNode - Elems(ks), RemoveFirst(r.nodes, n),
                      Forget(r.weights, n), r.index - 1);
    RemoveFirstDistinct(r.nodes, n);
    forall k | k in r'.keyNode
      ensures r'.keyNode[k] in r'.nodes && k in NodeKeys(h, r'.weights, r'.keyNode[k])
    {
      var o := r.keyNode[k];
      assert k !in ks;
      assert o != n;
    }
  }

  /**
   * `remove_nodes` of one identifier, on a ring whose positions are all
   * different (so that no `del key_node[key]` fails), keeps the invariant
   * and keeps the positions different; an identifier not registered
   * changes nothing.
   */
  lemma RemoveOneKeepsInv(h: Hasher, r: Ring, n: string)
    requires RingInv(h, r) && Distinct(r.keys)
    ensures RingInv(h, RemoveOne(h, r, n)) && Distinct(RemoveOne(h, r, n).keys)
    ensures n !in r.nodes ==> RemoveOne(h, r, n) == r
  {
    if n in r.nodes {
      RemoveOneKeys(h, r, n);
      RemoveFirstSpec(r.nodes, n);
      RemoveFirstDistinct(r.nodes, n);
      RemoveOneCoherent(h, r, n);
      RemoveOneOwners(h, r, n);
    }
  }

  /** The `remove_nodes` loop keeps the invariant and the positions different. */
  lemma {:induction false} RemoveListKeepsInv(h: Hasher, r: Ring, ids: seq<string>)
    requires RingInv(h, r) && Distinct(r.keys)
    ensures RingInv(h, RemoveList(h, r, ids)) && Distinct(RemoveList(h, r, ids).keys)
  {
    if |ids| > 0 {
      RemoveListKeepsInv(h, r, ids[..|ids| - 1]);
      RemoveOneKeepsInv(h, RemoveList(h, r, ids[..|ids| - 1]), ids[|ids| - 1]);
    }
  }

  /** Claiming positions no one held, then deleting them, gives back the map. */
  lemma ClaimRelease(m: map<nat, string>, ks: seq<nat>, n: string)
    requires forall k :: k in ks ==> k !in m
    ensures (m + Claim(ks, n)) - Elems(ks) == m
  {
  }

  /** Recording the weight of one new node, then deleting it, gives back the weights. */
  lemma IngestOneWeights(w: map<string, nat>, objects: Objects, n: string)
    requires Names(objects) == [n] && n !in w
    ensures Forget(IngestedWeights(w, objects), n) == w
  {
    IngestedWeightsSpec(w, objects);
  }

  /**
   * Adding one node that is not registered and whose positions are new and
   * all different, then removing it again, gives back the ring it started from.
   */
  lemma AddRemoveRoundTrip(h: Hasher, r: Ring, objects: Objects, n: string)
    requires RingInv(h, r)
    requires !objects.Other? && Names(objects) == [n] && n !in r.nodes
    requires Distinct(NodeKeys(h, IngestedWeights(r.weights, objects), n))
    requires forall k :: k in NodeKeys(h, IngestedWeights(r.weights, objects), n) ==> k !in r.keys
    ensures Add(h, r, objects).Ok?
    ensures Remove(h, Add(h, r, objects).value, List([n])) == Ok(r)
  {
    var w' := IngestedWeights(r.weights, objects);
    var ks := NodeKeys(h, w', n);
    AddOneShape(h, r, objects, n);
    var r' := Add(h, r, objects).value;
    assert RemoveList(h, r', [n]) == RemoveOne(h, r', n) by {
      assert [n][..0] == [];
    }
    IngestOneWeights(r.weights, objects, n);
    RemoveAddedOne(h, r, w', n);
  }

  /** Removing the node just appended to a ring undoes the append, field by field. */
  lemma RemoveAddedOne(h: Hasher, r: Ring, w': map<string, nat>, n: string)
    requires Sorted(r.keys) && n !in r.nodes && r.index == |r.nodes| && Forget(w', n) == r.weights
    requires forall k :: k in NodeKeys(h, w', n) ==> k !in r.keyNode
    ensures var ks := NodeKeys(h, w', n);
      RemoveOne(h, Ring(Sort(r.keys + ks), r.keyNode + Claim(ks, n), r.nodes + [n], w', |r.nodes| + 1), n) == r
  {
    var ks := NodeKeys(h, w', n);
    SortRemoveAll(r.keys, ks);
    ClaimRelease(r.keyNode, ks, n);
    RemoveFirstAppend(r.nodes, [n], n);
    assert r.nodes + [] == r.nodes;
  }

  /** `add_nodes` of a single node, field by field. */
  lemma AddOneShape(h: Hasher, r: Ring, objects: Objects, n: string)
    requires r.index == |r.nodes| && !objects.Other? && Names(objects) == [n]
    ensures var w' := IngestedWeights(r.weights, objects);
      var ks := NodeKeys(h, w', n);
      Add(h, r, objects) == Ok(Ring(Sort(r.keys + ks), r.keyNode + Claim(ks, n), r.nodes + [n], w', |r.nodes| + 1))
  {
    AddShape(h, r, objects);
    Single(KeysOf(h, IngestedWeights(r.weights, objects)), r.keyNode, n);
  }

  /** When no position repeats, two different nodes share no position. */
  lemma NodeKeysDisjoint(h: Hasher, w: map<string, nat>, ns: seq<string>, n: string, o: string, k: nat)
    requires Distinct(Flatten(h, w, ns))
    requires n in ns && o in ns && o != n && k in NodeKeys(h, w, o)
    ensures k !in NodeKeys(h, w, n)
  {
    FlatMapDisjoint(KeysOf(h, w), ns, n, o, k);
  }

  /** On a ring satisfying the invariant, `get_node` answers a registered node that generates the chosen position. */
  lemma OwnerRegistered(h: Hasher, r: Ring, x: nat)
    requires RingInv(h, r)
    ensures Owner(r, x).Some? ==>
      && Owner(r, x).value in r.nodes
      && r.keys[NodePos(r, x).value] in NodeKeys(h, r.weights, Owner(r, x).value)
  {
  }

  /**
   * Removing a node (on a ring whose positions are all different) does not
   * move any lookup key that another node owned: `get_node` answers the same.
   */
  lemma RemoveKeepsOtherOwners(h: Hasher, r: Ring, n: string, x: nat)
    requires RingInv(h, r) && Distinct(r.keys)
    requires Owner(r, x).Some? && Owner(r, x).value != n
    ensures Coherent(RemoveOne(h, r, n))
    ensures Owner(RemoveOne(h, r, n), x) == Owner(r, x)
  {
    RemoveOneKeepsInv(h, r, n);
    if n in r.nodes {
      var r', ks := RemoveOne(h, r, n), NodeKeys(h, r.weights, n);
      RemoveOneKeys(h, r, n);
      var v := r.keys[SuccessorIndex(r.keys, x)];
      var o := r.keyNode[v];
      DistinctSub(Flatten(h, r.weights, r.nodes), r.keys);
      NodeKeysDisjoint(h, r.weights, r.nodes, n, o, v);
      assert v in r'.keys by {
        assert multiset(r.keys)[v] == multiset(r'.keys)[v] + multiset(ks)[v];
        assert multiset(ks)[v] == 0;
      }
      forall y | y in r'.keys ensures y in r.keys {
        assert multiset(r.keys)[y] == multiset(r'.keys)[y] + multiset(ks)[y];
      }
      SuccessorStable(r'.keys, r.keys, x);
    }
  }

  /**
   * Adding nodes moves a lookup key only onto one of the added nodes:
   * `get_node` afterwards answers what it answered before, or an added node.
   */
  lemma AddMovesOnlyToNew(h: Hasher, r: Ring, objects: Objects, x: nat)
    requires RingInv(h, r)
    requires !objects.Other? && Distinct(r.nodes + Names(objects))
    ensures Add(h, r, objects).Ok? && Coherent(Add(h, r, objects).value)
    ensures var owner := Owner(Add(h, r, objects).value, x);
      owner == Owner(r, x) || (owner.Some? && owner.value in Names(objects))
  {
    var ns, w' := Names(objects), IngestedWeights(r.weights, objects);
    var r' := Add(h, r, objects).value;
    AddShape(h, r, objects);
    AddKeys(h, r, objects);
    AddCoherent(h, r, objects);
    AddOwners(h, r, objects);
    AssignSpec(h, w', r.keyNode, ns);
    var owner := Owner(r', x);
    if owner.None? {
      assert r'.keyNode == map[];
      assert r.keyNode == map[];
    } else if owner.value !in ns {
      var v := r'.keys[SuccessorIndex(r'.keys, x)];
      assert v !in Flatten(h, w', ns);
      assert v in r.keys;
      forall y | y in r.keys ensures y in r'.keys {
        assert y in multiset(r.keys);
      }
      SuccessorStable(r.keys, r'.keys, x);
    }
  }
}
