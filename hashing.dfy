/**
 * Key derivation for the ring: a 16-byte digest of a string is read as four
 * little-endian 32-bit words (consistent_hash.py, `_hash_val`, `gen_key`),
 * and every node is spread over `4 * InterleaveCount * weight` positions
 * (`_node_keys`).
 *
 * The digest itself (MD5 of the UTF-8 encoding) is a library call; it is a
 * parameter here: any total function from strings to 16 bytes.
 */
module Hashing {

  type Byte = x: int | 0 <= x < 256

  /** A 16-byte digest, as `list(hashlib.md5(...).digest())` gives it. */
  type Digest = s: seq<Byte> | |s| == 16 witness [0, 0, 0, 0, 0, 0, 0, 0, 0, 0, 0, 0, 0, 0, 0, 0]

  /** The digest algorithm applied to a string (MD5 over UTF-8 in the source). */
  type Hasher = string -> Digest

  /** Number of digest computations per unit of weight (`interleave_count`). */
  const InterleaveCount: nat := 10

  /** Ring positions lie in [0, RingSize). */
  const RingSize: nat := 0x1_0000_0000

  /**
   * `_hash_val(b, lambda x: x + o)`: bytes o..o+3 of the digest as an unsigned
   * little-endian word. The source ORs the shifted bytes together; the
   * shifted bytes occupy disjoint bit ranges, so the OR is their sum.
   */
  function HashVal(b: Digest, o: nat): (r: nat)
    requires o + 4 <= |b|
    ensures r < RingSize
  {
    b[o + 3] as int * 16777216 + b[o + 2] as int * 65536 + b[o + 1] as int * 256 + b[o] as int
  }

  /**
   * `_hash_val` reads the word little-endian: byte o is the lowest byte of
   * the result and byte o + 3 the highest.
   */
  lemma HashValBytes(b: Digest, o: nat)
    requires o + 4 <= |b|
    ensures var r := HashVal(b, o);
      && r % 256 == b[o] && r / 256 % 256 == b[o + 1]
      && r / 65536 % 256 == b[o + 2] && r / 16777216 == b[o + 3]
  {
    LittleEndianWord(b[o], b[o + 1], b[o + 2], b[o + 3]);
  }

  /** The four bytes of a little-endian word are recovered by division and remainder. */
  lemma LittleEndianWord(b0: Byte, b1: Byte, b2: Byte, b3: Byte)
    ensures var w := b3 as int * 16777216 + b2 as int * 65536 + b1 as int * 256 + b0 as int;
      && w < RingSize
      && w % 256 == b0 && w / 256 % 256 == b1
      && w / 65536 % 256 == b2 && w / 16777216 == b3
  {
    var w := b3 as int * 16777216 + b2 as int * 65536 + b1 as int * 256 + b0 as int;
    var q1 := b3 as int * 65536 + b2 as int * 256 + b1 as int;
    var q2 := b3 as int * 256 + b2 as int;
    assert w == 256 * q1 + b0;
    assert w / 256 == q1 && w % 256 == b0;
    assert q1 == 256 * q2 + b1;
    assert q1 % 256 == b1;
    assert w == 65536 * q2 + (b1 as int * 256 + b0 as int);
    assert w / 65536 == q2;
    assert q2 % 256 == b2;
    assert w == 16777216 * b3 + (b2 as int * 65536 + b1 as int * 256 + b0 as int);
  }

  /** `gen_key`: the ring position a lookup key hashes to (the first word). */
  function GenKey(h: Hasher, key: string): (r: nat)
    ensures r < RingSize
    ensures r == Quad(h(key))[0]
  {
    HashVal(h(key), 0)
  }

  /** All four words of one digest, in byte order: the positions one digest yields. */
  function Quad(b: Digest): seq<nat> {
    seq(4, i requires 0 <= i < 4 => HashVal(b, 4 * i))
  }

  /** The decimal digit character for `d`. */
  function DigitChar(d: nat): char
    requires d < 10
  {
    "0123456789"[d]
  }

  /** Python's `str(j)` for a non-negative integer. */
  function Decimal(j: nat): string
    decreases j
  {
    if j < 10 then [DigitChar(j)] else Decimal(j / 10) + [DigitChar(j % 10)]
  }

  /** The string `f"{node}-{j}"` hashed for replica `j` of `node`. */
  function Label(node: string, j: nat): string {
    node + "-" + Decimal(j)
  }

  /** A number of two or more digits is written with at least two characters. */
  lemma {:induction false} DecimalLength(j: nat)
    ensures |Decimal(j)| >= 1
    ensures j >= 10 ==> |Decimal(j)| >= 2
  {
    if j >= 10 {
      DecimalLength(j / 10);
    }
  }

  /** Different numbers are written differently. */
  lemma {:induction false} DecimalInjective(i: nat, j: nat)
    requires Decimal(i) == Decimal(j)
    ensures i == j
    decreases i
  {
    DecimalLength(i);
    DecimalLength(j);
    if i >= 10 && j >= 10 {
      var a, b := Decimal(i), Decimal(j);
      assert DigitChar(i % 10) == a[|a| - 1] == b[|b| - 1] == DigitChar(j % 10);
      assert Decimal(i / 10) == a[..|a| - 1] == b[..|b| - 1] == Decimal(j / 10);
      DecimalInjective(i / 10, j / 10);
    }
  }

  /**
   * The replicas of one node hash different strings: `f"{node}-{j}"`
   * determines `j`.
   */
  lemma LabelInjective(node: string, i: nat, j: nat)
    requires Label(node, i) == Label(node, j)
    ensures i == j
  {
    assert Label(node, i)[|node| + 1..] == Decimal(i);
    assert Label(node, j)[|node| + 1..] == Decimal(j);
    DecimalInjective(i, j);
  }

  /** `weights.get(node, 1)`. */
  function Weight(weights: map<string, nat>, node: string): nat {
    if node in weights then weights[node] else 1
  }

  /** The positions of replicas 0..count-1 of `node`, four per replica. */
  function Replicas(h: Hasher, node: string, count: nat): seq<nat> {
    if count == 0 then []
    else Replicas(h, node, count - 1) + Quad(h(Label(node, count - 1)))
  }

  /** Four positions per replica. */
  lemma {:induction false} ReplicasLength(h: Hasher, node: string, count: nat)
    ensures |Replicas(h, node, count)| == 4 * count
  {
    if count > 0 {
      ReplicasLength(h, node, count - 1);
    }
  }

  /** `_node_keys(node)`: every ring position of `node` under `weights`. */
  function NodeKeys(h: Hasher, weights: map<string, nat>, node: string): seq<nat> {
    Replicas(h, node, InterleaveCount * Weight(weights, node))
  }

  /**
   * Position number p of replica list `Replicas(h, node, count)` is word
   * p % 4 of the digest of replica p / 4.
   */
  lemma {:induction false} ReplicasAt(h: Hasher, node: string, count: nat, p: nat)
    requires p < 4 * count
    ensures |Replicas(h, node, count)| == 4 * count
    ensures Replicas(h, node, count)[p] == HashVal(h(Label(node, p / 4)), 4 * (p % 4))
  {
    var prefix := Replicas(h, node, count - 1);
    ReplicasLength(h, node, count);
    ReplicasLength(h, node, count - 1);
    assert Replicas(h, node, count) == prefix + Quad(h(Label(node, count - 1)));
    if p < 4 * (count - 1) {
      ReplicasAt(h, node, count - 1, p);
      assert Replicas(h, node, count)[p] == prefix[p];
    } else {
      var i := p - 4 * (count - 1);
      assert p == 4 * (count - 1) + i && 0 <= i < 4;
      assert p / 4 == count - 1 && p % 4 == i;
      assert Replicas(h, node, count)[p] == Quad(h(Label(node, count - 1)))[i];
    }
  }

  /**
   * `_node_keys(node)` yields exactly `4 * interleave_count * weight` keys,
   * weight defaulting to 1, and key number `4j + i` is the word at byte
   * offset `4i` of the digest of `f"{node}-{j}"`.
   */
  lemma NodeKeysSpec(h: Hasher, weights: map<string, nat>, node: string)
    ensures |NodeKeys(h, weights, node)| == 4 * InterleaveCount * Weight(weights, node)
    ensures node !in weights ==> |NodeKeys(h, weights, node)| == 4 * InterleaveCount
    ensures forall p :: 0 <= p < |NodeKeys(h, weights, node)| ==>
      NodeKeys(h, weights, node)[p] == HashVal(h(Label(node, p / 4)), 4 * (p % 4))
    ensures forall k :: k in NodeKeys(h, weights, node) ==> k < RingSize
  {
    var count := InterleaveCount * Weight(weights, node);
    ReplicasLength(h, node, count);
    forall p | 0 <= p < |NodeKeys(h, weights, node)|
      ensures NodeKeys(h, weights, node)[p] == HashVal(h(Label(node, p / 4)), 4 * (p % 4))
    {
      ReplicasAt(h, node, count, p);
    }
  }

  /** Weight is a linear multiplier: a heavier node owns strictly more positions. */
  lemma WeightMonotone(h: Hasher, weights: map<string, nat>, a: string, b: string)
    requires Weight(weights, a) > Weight(weights, b)
    ensures |NodeKeys(h, weights, a)| > |NodeKeys(h, weights, b)|
  {
    NodeKeysSpec(h, weights, a);
    NodeKeysSpec(h, weights, b);
  }
}
