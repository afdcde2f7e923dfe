# Consistent hash ring

A Dafny model of the `ConsistentHash` class of consistent_hash.py. The class is a
weighted consistent-hashing ring:

- Each registered node is spread over `4 * 10 * weight` 32-bit positions.
- A position is a little-endian word of the 16-byte MD5 digest of the string
  `"<node>-<j>"`.
- A lookup key is hashed the same way and answered by the owner of the first
  ring position strictly greater than it. A key past the last position wraps
  around to the first one.

The project has these modules:

- `Hashing` (hashing.dfy) covers `_hash_val`, `gen_key` and `_node_keys`. The
  digest is a parameter `Hasher`: any total function from strings to 16 bytes.
- `Lookup` (lookup.dfy) covers `bisect.bisect` as a binary search. It is proved
  equal to a linear-scan reference `FirstAbove`. It also defines the wrap-around
  successor `SuccessorIndex`.
- `Seqs` (seqs.dfy) and `FlatMaps` (flat_maps.dfy) hold the list operations the
  class uses: `list.sort`, `list.remove`, and the node-by-node spreading of
  positions.
- `RingSpec` (ring.dfy) holds the five instance fields as a value `Ring`. Each
  operation is a function on it.
- `RingProps` (ring_props.dfy) holds what the operations guarantee:
  - The ring invariant `RingInv`, kept by `add_nodes` and `remove_nodes`.
  - The add-then-remove round trip.
  - Lookup stability: adding nodes moves keys only onto the added nodes, and
    removing a node moves only that node's keys.
- `ConsistentHashing` (consistent_hash.dfy) holds the class itself. Its fields
  are updated in place by methods whose loops follow the source loops. Each
  method is proved to leave `State()` equal to the matching `RingSpec` function.

## Model

| member | source | states |
|---|---|---|
| `Hashing.HashVal` | consistent_hash.py:134-146 | a word built from four digest bytes lies in [0, 2^32) |
| `Hashing.HashValBytes` | consistent_hash.py:141-146 | the word is little-endian: byte `o` is its lowest byte, `o+1` the next, `o+2` the next and `o+3` the highest (shift by 0, 8, 16, 24) |
| `Hashing.GenKey` | consistent_hash.py:126-132 | the position of a lookup key lies in [0, 2^32) and is the first word (bytes 0..3) of the key's digest |
| `Hashing.ReplicasLength` | consistent_hash.py:88-91 | `count` digests yield exactly `4 * count` positions |
| `Hashing.ReplicasAt` | consistent_hash.py:88-91 | position `p` is the word at byte offset `4 * (p % 4)` of the digest of replica `p / 4` |
| `Hashing.NodeKeysSpec` | consistent_hash.py:79-91 | `_node_keys(node)` (`NodeKeys`, built from `Replicas`, `Label` and `Weight`) has `4 * 10 * weight` positions, the weight defaulting to 1 for a node without one. Key `4j + i` is the word at offset `4i` of the digest of `"<node>-<j>"`. Every key is below 2^32 |
| `Hashing.DecimalInjective` | consistent_hash.py:89 | `str(j)` (`Decimal`) writes different numbers differently |
| `Hashing.LabelInjective` | consistent_hash.py:89 | the string `f"{node}-{j}"` (`Label`) determines `j`, so the replicas of one node hash different strings |
| `Hashing.WeightMonotone` | consistent_hash.py:85-88 | a node of larger weight gets strictly more positions |
| `Lookup.FirstAbove` | consistent_hash.py:111 | reference scan: every position before the result is at most `x`, and the position at the result (if any) is above `x` |
| `Lookup.BisectRight` | consistent_hash.py:111 | binary search over a sorted ring returns exactly the index of the first position strictly above the key |
| `Lookup.SuccessorIndex` | consistent_hash.py:110-112 | on a non-empty ring the index is in range. When some position exceeds the key, it is the first such position and all earlier ones are at most the key. When none does, it wraps to 0 |
| `Lookup.SuccessorIsLeast` | consistent_hash.py:110-112 | on a sorted ring the chosen position is the least position above the key, or the least position overall when none is above |
| `Lookup.SuccessorStable` | consistent_hash.py:110-112 | if a ring shrinks to a subset that still holds the position chosen for a key, the smaller ring chooses that same position |
| `Seqs.InsertSpec` | consistent_hash.py:48 | inserting into a sorted list keeps it sorted and adds exactly that element |
| `Seqs.SortSpec` | consistent_hash.py:48 | `keys.sort()` (`Sort`) yields a sorted permutation of `keys` |
| `Seqs.SortedUnique` | consistent_hash.py:48 | two sorted permutations of the same list are equal, so any correct sort gives the same `keys` |
| `Seqs.RemoveFirstSpec` | consistent_hash.py:72 | `list.remove(x)` (`RemoveFirst`) takes out exactly one occurrence of a present `x` (the multiset loses `x`, the length drops by one) |
| `Seqs.RemoveFirstSorted` | consistent_hash.py:72 | `keys.remove(key)` keeps `keys` sorted |
| `Seqs.RemoveAllShrinks` | consistent_hash.py:71-72 | removing values one by one (`RemoveAll`, built from `RemoveFirst`) only ever takes values out; an absent value is skipped where Python would raise `ValueError` |
| `Seqs.RemoveAllSpec` | consistent_hash.py:71-72 | removing the positions of `xs` one by one, all present, takes out exactly their multiset |
| `Seqs.RemoveAllSorted` | consistent_hash.py:71-72 | removing positions one by one keeps `keys` sorted |
| `Seqs.SortRemoveAll` | consistent_hash.py:71-72 | appending positions to a sorted list, sorting, and removing them again gives back the list |
| `FlatMaps.ClaimAllSpec` | consistent_hash.py:55-57 | after the `key_node[key] = node` writes, a position is mapped exactly when it was mapped before or some placed node generates it; other positions keep their owner |
| `FlatMaps.FlatMapRemoveFirst` | consistent_hash.py:71-74 | taking one node out of the node list takes exactly its positions out of the spread, as multisets |
| `RingSpec.Ingest` | consistent_hash.py:30-38 | `None` is a no-op (the ring comes back unchanged). Otherwise it only appends to `nodes` and, for a dict only, changes `weights`; `keys`, `key_node` and `index` are never touched. Any other value raises TypeError with the source's message |
| `RingSpec.Add` | consistent_hash.py:40-48 | TypeError exactly for a bad argument. Otherwise `nodes` gains the names, `weights` the dict's entries, `index == len(nodes)`, and `keys` is sorted |
| `RingSpec.Place` | consistent_hash.py:46-48 | after generating from `index` and sorting, `keys` is sorted, `index == len(nodes)`, and `keys` holds the old positions plus those of `nodes[index:]` |
| `RingSpec.Forget` | consistent_hash.py:75-76 | `del weights[node]` when present: every other node keeps its weight and `node` has none |
| `RingSpec.NodePos` | consistent_hash.py:102-112 | `None` exactly when `key_node` is empty; otherwise an index into `keys` |
| `RingSpec.Owner` | consistent_hash.py:93-100 | `None` exactly when the ring is empty; otherwise a node that owns some position |
| `RingProps.DictKeysSpec` | consistent_hash.py:31 | `objects.keys()` (`DictKeys`) lists one name per entry, in insertion order |
| `RingProps.UpdateSpec` | consistent_hash.py:32 | `weights.update(dict)` (`Update`) defines exactly the old keys and the dict's keys, stores for each name the weight of its last entry, and leaves other weights alone |
| `RingProps.IngestedWeightsSpec` | consistent_hash.py:30-38 | ingesting a dict records for each name the weight the dict gives it. Ingesting changes the weight only of ingested nodes, keeps every recorded weight defined, and adds weights only for ingested nodes |
| `RingProps.GenerateSpec` | consistent_hash.py:50-58 | `_generate_ring(start)` (`Generate`) keeps the old `keys` as a prefix and leaves `nodes`, `weights`, `index` alone. A position is mapped afterwards exactly when it was mapped before or was just appended. Every position of every node of `nodes[start:]` is appended. An appended position is owned by a node of `nodes[start:]` generating it, and every other position keeps its owner |
| `RingProps.AssignSpec` | consistent_hash.py:55-58 | `_generate_ring` maps exactly the old positions plus every position of the placed nodes; the rest keep their owner |
| `RingProps.FreshOwner` | consistent_hash.py:55-58 | a position generated by a placed node ends up owned by a placed node that generates it |
| `RingProps.AddShape` | consistent_hash.py:40-48 | `add_nodes` on a ring with `index == len(nodes)`, field by field: sorted old plus new positions, new positions claimed node after node, names appended, weights updated, index updated |
| `RingProps.AddKeys` | consistent_hash.py:45-48 | after `add_nodes`, `keys` is the old positions plus every position of the added nodes, which is the positions of all registered nodes |
| `RingProps.AddCoherent` | consistent_hash.py:40-48 | `add_nodes` keeps `key_node` defined exactly on the positions in `keys`, even when a node is added twice |
| `RingProps.AddOwnersGenerate` | consistent_hash.py:40-58 | after adding unregistered nodes, every mapped position belongs to a registered node that generates it |
| `RingProps.AddKeepsInv` | consistent_hash.py:40-48 | adding nodes that are not yet registered keeps the ring invariant |
| `RingProps.AddOwners` | consistent_hash.py:55-58 | every position of an added node is owned by an added node generating it. An old position that no added node generates keeps its owner |
| `RingProps.AddMovesOnlyToNew` | consistent_hash.py:40-48 | after `add_nodes`, `get_node(k)` answers what it answered before, or one of the added nodes |
| `RingProps.RemoveOneSpec` | consistent_hash.py:68-77 | one pass of the removal loop (`RemoveOne`) on any ring. An unregistered identifier changes nothing. A registered node loses one entry in `nodes`, its weight and one from `index`; its positions leave `key_node`; other owners and weights are kept and `keys` only shrinks. The model is total: a position missing from `keys` or `key_node` is skipped where the source raises `ValueError` or `KeyError` |
| `RingProps.RemoveListGone` | consistent_hash.py:68-77 | after the removal loop (`RemoveList`) on a ring whose nodes are registered once, no listed identifier is registered, every unlisted node still is, and nodes stay registered once |
| `RingProps.RemovedPositions` | consistent_hash.py:71-74 | the positions of a registered node are present in `keys`. Removing them leaves exactly the positions of the remaining nodes |
| `RingProps.RemoveOneKeys` | consistent_hash.py:68-77 | removing a registered node takes exactly its positions out of `keys`, keeps `keys` sorted and equal to the positions of the remaining nodes |
| `RingProps.RemovablePositions` | consistent_hash.py:71-73 | on a ring whose positions are all different, every position of a registered node is in `keys` (no ValueError), is in `key_node` (no KeyError), and appears once |
| `RingProps.RemoveOneCoherent` | consistent_hash.py:71-73 | removing a node keeps `key_node` defined exactly on `keys`, with all positions different |
| `RingProps.RemoveOneOwners` | consistent_hash.py:68-77 | after removing a node, every mapped position still belongs to a registered node generating it |
| `RingProps.RemoveOneKeepsInv` | consistent_hash.py:68-77 | one pass of the removal loop keeps the ring invariant. An identifier not registered changes nothing |
| `RingProps.RemoveListKeepsInv` | consistent_hash.py:68-77 | the whole removal loop keeps the ring invariant |
| `RingProps.AddRemoveRoundTrip` | consistent_hash.py:40-77 | adding one unregistered node whose own positions are all different and none already on the ring, then `remove_nodes([node])`, gives back the original ring, field by field |
| `RingProps.RemoveAddedOne` | consistent_hash.py:68-77 | removing the node just appended restores `keys`, `key_node`, `nodes`, `weights` and `index` |
| `RingProps.NodeKeysDisjoint` | consistent_hash.py:79-91 | when no position repeats on the ring, two different nodes share no position |
| `RingProps.OwnerRegistered` | consistent_hash.py:93-100 | on a valid ring, `get_node` answers a registered node that generates the chosen position |
| `RingProps.RemoveKeepsOtherOwners` | consistent_hash.py:68-77 | removing node `n` leaves `get_node(k)` unchanged for every key owned by another node |
| `ConsistentHashing.ConsistentHash.Init` | consistent_hash.py:17-21 | the fields start empty, with `index` 0, and the ring is valid |
| `ConsistentHashing.ConsistentHash.Create` | consistent_hash.py:12-23 | TypeError exactly for a bad argument. Otherwise a fresh ring in the state `add_nodes` gives an empty ring, with `key_node` coherent, and valid when the names are distinct |
| `ConsistentHashing.ConsistentHash.IngestObjects` | consistent_hash.py:25-38 | the fields become `Ingest` of the old fields, or stay unchanged with TypeError |
| `ConsistentHashing.ConsistentHash.GenerateRing` | consistent_hash.py:50-58 | the fields become `Generate`: the positions of `nodes[start:]` are appended node by node and claimed for their node |
| `ConsistentHashing.ConsistentHash.PlaceNode` | consistent_hash.py:56-58 | the inner loop appends exactly `_node_keys(node)` to `keys` and maps each of them to `node`; other fields are unchanged |
| `ConsistentHashing.ConsistentHash.AddNodes` | consistent_hash.py:40-48 | TypeError exactly for a bad argument, leaving the state unchanged. Otherwise the fields become `Add`. Coherence is always kept, and the ring invariant is kept when the added nodes are new |
| `ConsistentHashing.ConsistentHash.PlaceNew` | consistent_hash.py:46-48 | the fields become `Place` of the old fields |
| `ConsistentHashing.ConsistentHash.RemoveNodes` | consistent_hash.py:60-77 | TypeError exactly for a non-list, leaving the state unchanged. Otherwise the fields become `RemoveList` over the identifiers, and the ring invariant is kept |
| `ConsistentHashing.ConsistentHash.RemoveNode` | consistent_hash.py:68-77 | one identifier: skipped when not registered, otherwise the fields become `RemoveOne` |
| `ConsistentHashing.ConsistentHash.DropNode` | consistent_hash.py:71-77 | a registered node loses its positions, its entry in `nodes`, its weight, and one from `index` |
| `ConsistentHashing.ConsistentHash.RemoveKeys` | consistent_hash.py:71-73 | the inner loop removes one occurrence of each position from `keys` and deletes each from `key_node`; other fields are unchanged |
| `ConsistentHashing.ConsistentHash.GetNodesCount` | consistent_hash.py:120-124 | the number of registered nodes, which equals `index` on a valid ring |
| `ConsistentHashing.ConsistentHash.GetNodePos` | consistent_hash.py:102-112 | equals `NodePos` of the hashed key: `None` exactly when `key_node` is empty, otherwise an index into `keys` |
| `ConsistentHashing.ConsistentHash.GetNode` | consistent_hash.py:93-100 | equals `Owner` of the hashed key: `None` exactly when the ring is empty, otherwise (on a valid ring) a registered node |

## Left out

- MD5 and the UTF-8 encoding in `_hash_digest` (lines 148-157) are a library call. The digest is the `Hasher` parameter: any total function from strings to 16 bytes.
- The `bytes` branch of `_hash_digest` is not modelled: keys and node names are strings.
- `_hash_val` combines the shifted bytes with `|`. The model adds them instead. The bytes occupy disjoint bit ranges, so the two agree.
- `get_all_nodes` (lines 114-118) is not modelled. It is a display helper that splits names with a regular expression and parses integers.
- Weights are natural numbers. Float weights, truncated by `int(factor)`, and negative weights are not modelled.
- The `hasher` class attribute (line 10) is never used by the class and is not modelled. `interleave_count` is the constant 10; overriding it in a subclass is not modelled.
- A dict argument is a sequence of `(node, weight)` entries in insertion order. A Python dict cannot repeat a key, but the model does not enforce that.
- `keys.sort()` is Timsort in place. The model assigns `Sort(keys)`, an insertion sort. `Seqs.SortedUnique` shows that every correct sort gives the same list.
- `ConsistentHashing.ConsistentHash.RemoveNodes`: requires the ring invariant and pairwise different positions (`Distinct(keys)`). This excludes the paths where the source raises `ValueError` from `keys.remove` or `KeyError` from `del key_node[key]`. Such paths arise in two cases. A name added twice may be listed twice for removal; the second pass finds its positions still in `keys` but no longer in `key_node`, so `del key_node[key]` raises `KeyError`. A single node's own positions may repeat; its second `del key_node[key]` then raises `KeyError`, which is why `RemoveKeys` also requires `Distinct(ks)`. The partially updated state left by such an exception is not modelled. The requirement is also stronger than needed: it excludes a ring where two OTHER nodes share a position, although removing a third node from such a ring raises nothing in the source.
- Two registered nodes sharing a 32-bit position are not modelled as a removal path. In the source, removing the first of them raises nothing: `keys.remove` takes one copy of the position and `del key_node[k]` deletes the entry the other node still needs. The ring is left with `k` in `keys` but not in `key_node`, and a later `get_node` that lands on `k` raises `KeyError`. `RemoveNodes` excludes such rings by `Distinct(keys)`.
- `ConsistentHashing.ConsistentHash.GetNode` and `RingSpec.Owner` require `key_node` to be defined exactly on `keys` (`Coherent`), which `get_node` itself does not check. Without it the lookup `key_node[keys[pos]]` can raise `KeyError`, as after the removal described above; that raise is not modelled.
- `ConsistentHashing.ConsistentHash.RemoveNodes`: the identifier list is taken as a value, a snapshot made at the call. In the source the loop walks the caller's list while `self.nodes.remove(node)` shrinks `self.nodes`. A call passing the ring's own `nodes` list, as in `ring.remove_nodes(ring.nodes)`, therefore skips every second node in the source. That aliasing is not modelled; the model removes every listed node.
- `ConsistentHashing.ConsistentHash.AddNodes`: the ring invariant is proved kept only when the added names are new and pairwise different. Re-adding a registered name is modelled (the name and its positions are appended again), but the invariant `RingInv` does not hold afterwards. Only coherence of `key_node` is proved for it.
- `ConsistentHashing.ConsistentHash.RemoveKeys` removes positions from local copies of `keys` and `key_node` and writes them back after the loop. Nothing else observes the fields meanwhile, so this matches the source's direct updates.
- `_generate_ring` is called only with `start = self.index`. `GenerateRing` takes any `start` up to `len(nodes)`; Python's clamping of a larger slice start is not modelled.
- Concurrent use of one ring is not modelled. test.py is not part of this model.
