/**
 * Ring lookup (consistent_hash.py, `get_node_pos`): the owner of a hashed
 * key is the first ring position strictly greater than it; a key at or past
 * the last position wraps around to index 0.
 */
module Lookup {
  import opened Seqs

  /**
   * Reference definition, by a linear scan: the index of the first position
   * strictly greater than `x`, or `|keys|` when there is none.
   */
  function FirstAbove(keys: seq<nat>, x: nat): (r: nat)
    ensures r <= |keys|
    ensures forall i :: 0 <= i < r ==> keys[i] <= x
    ensures r < |keys| ==> keys[r] > x
  {
    if |keys| == 0 then 0
    else if keys[0] > x then 0
    else 1 + FirstAbove(keys[1..], x)
  }

  /**
   * The index `get_node_pos` answers for a hashed key `x`: the first
   * position strictly greater than `x` (an exact match goes to the next
   * position), wrapping around to 0 past the end.
   */
  function SuccessorIndex(keys: seq<nat>, x: nat): (r: nat)
    ensures |keys| > 0 ==> r < |keys|
    ensures (exists i :: 0 <= i < |keys| && keys[i] > x) ==>
      keys[r] > x && forall i :: 0 <= i < r ==> keys[i] <= x
    ensures (forall i :: 0 <= i < |keys| ==> keys[i] <= x) ==> r == 0
  {
    var p := FirstAbove(keys, x);
    if p == |keys| then 0 else p
  }

  /**
   * Python's `bisect.bisect_right(keys, x)` (what `bisect.bisect` is): a
   * binary search over the sorted ring. It finds what the linear scan finds.
   */
  method BisectRight(keys: seq<nat>, x: nat) returns (lo: nat)
    requires Sorted(keys)
    ensures lo == FirstAbove(keys, x)
  {
    lo := 0;
    var hi := |keys|;
    while lo < hi
      invariant 0 <= lo <= hi <= |keys|
      invariant forall i :: 0 <= i < lo ==> keys[i] <= x
      invariant forall i :: hi <= i < |keys| ==> keys[i] > x
    {
      var mid := (lo + hi) / 2;
      if x < keys[mid] {
        hi := mid;
      } else {
        lo := mid + 1;
      }
    }
    assert lo < |keys| ==> keys[lo] > x;
  }

  /**
   * On a sorted ring the position chosen for `x` is the least position above
   * `x`, or the least position overall when none is above: any other ring
   * position above `x` (or, in the wrap case, any position) is at least it.
   */
  lemma {:induction false} SuccessorIsLeast(keys: seq<nat>, x: nat, j: nat)
    requires Sorted(keys) && j < |keys|
    requires keys[j] > x || forall i :: 0 <= i < |keys| ==> keys[i] <= x
    ensures keys[SuccessorIndex(keys, x)] <= keys[j]
  {
    var r := SuccessorIndex(keys, x);
    if keys[j] > x {
      assert r <= j;
    } else {
      assert r == 0;
    }
  }

  /**
   * Looking a key up in a ring that gained or lost positions: when the
   * position `b` chooses for `x` is also in the smaller ring `a`, `a` chooses
   * the same position.
   */
  lemma SuccessorStable(a: seq<nat>, b: seq<nat>, x: nat)
    requires Sorted(a) && Sorted(b) && |a| > 0 && |b| > 0
    requires forall y :: y in a ==> y in b
    requires b[SuccessorIndex(b, x)] in a
    ensures a[SuccessorIndex(a, x)] == b[SuccessorIndex(b, x)]
  {
    var u, v := a[SuccessorIndex(a, x)], b[SuccessorIndex(b, x)];
    var j :| 0 <= j < |a| && a[j] == v;
    assert u in b;
    var i :| 0 <= i < |b| && b[i] == u;
    if v <= x {
      forall k | 0 <= k < |a| ensures a[k] <= x {
        assert a[k] in b;
      }
    }
    SuccessorIsLeast(a, x, j);
    SuccessorIsLeast(b, x, i);
  }
}
