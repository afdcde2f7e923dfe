/**
 * Sequence utilities the ring is built on: sortedness, Python's in-place
 * `list.sort()` (as a function yielding the sorted permutation) and
 * `list.remove(x)` (delete the first occurrence).
 */
module Seqs {

  /** Ascending order, duplicates allowed. */
  ghost predicate Sorted(s: seq<nat>) {
    forall i, j :: 0 <= i < j < |s| ==> s[i] <= s[j]
  }

  /** No value occurs twice. */
  ghost predicate Distinct<T(!new)>(s: seq<T>) {
    forall x :: multiset(s)[x] <= 1
  }

  /** The set of values occurring in `s`. */
  function Elems<T(==)>(s: seq<T>): set<T> {
    set x | x in s
  }

  /** Inserts `x` into a sorted sequence before the first larger-or-equal value. */
  function Insert(s: seq<nat>, x: nat): seq<nat> {
    if |s| == 0 then [x]
    else if x <= s[0] then [x] + s
    else [s[0]] + Insert(s[1..], x)
  }

  /** Inserting into a sorted sequence keeps it sorted and adds exactly `x`. */
  lemma {:induction false} InsertSpec(s: seq<nat>, x: nat)
    requires Sorted(s)
    ensures Sorted(Insert(s, x))
    ensures multiset(Insert(s, x)) == multiset(s) + multiset{x}
  {
    if |s| == 0 {
    } else if x <= s[0] {
      ConsSorted(x, s);
    } else {
      var t := Insert(s[1..], x);
      assert s == [s[0]] + s[1..];
      TailSorted(s);
      InsertSpec(s[1..], x);
      forall k | 0 <= k < |t| ensures s[0] <= t[k] {
        assert t[k] in multiset(t);
        if t[k] != x {
          assert t[k] in multiset(s[1..]);
          SortedFirst(s, t[k]);
        }
      }
      ConsSorted(s[0], t);
    }
  }

  /**
   * The ascending rearrangement of `s`: what Python's `list.sort()` leaves
   * in the list (any correct sort yields it, see SortedUnique).
   */
  function Sort(s: seq<nat>): seq<nat> {
    if |s| == 0 then []
    else Insert(Sort(s[..|s| - 1]), s[|s| - 1])
  }

  /** `Sort` yields a sorted permutation of its input. */
  lemma {:induction false} SortSpec(s: seq<nat>)
    ensures Sorted(Sort(s))
    ensures multiset(Sort(s)) == multiset(s)
  {
    if |s| > 0 {
      assert s == s[..|s| - 1] + [s[|s| - 1]];
      SortSpec(s[..|s| - 1]);
      InsertSpec(Sort(s[..|s| - 1]), s[|s| - 1]);
    }
  }

  /** Two sorted sequences holding the same values are the same sequence. */
  lemma {:induction false} SortedUnique(a: seq<nat>, b: seq<nat>)
    requires Sorted(a) && Sorted(b)
    requires multiset(a) == multiset(b)
    ensures a == b
  {
    assert |a| == |multiset(a)| == |multiset(b)| == |b|;
    if |a| > 0 {
      assert a[0] in multiset(b) && b[0] in multiset(a);
      SortedFirst(b, a[0]);
      SortedFirst(a, b[0]);
      assert a == [a[0]] + a[1..] && b == [b[0]] + b[1..];
      assert a[0] == b[0];
      assert multiset(a[1..]) == multiset(b[1..]) by {
        assert multiset(a) == multiset(a[1..]) + multiset{a[0]};
        assert multiset(b) == multiset(b[1..]) + multiset{a[0]};
        MultisetCancel(multiset(a[1..]), multiset(b[1..]), multiset{a[0]});
      }
      TailSorted(a);
      TailSorted(b);
      SortedUnique(a[1..], b[1..]);
    }
  }

  /** The first value of a sorted sequence is its least. */
  lemma SortedFirst(s: seq<nat>, v: nat)
    requires Sorted(s) && v in s
    ensures s[0] <= v
  {
    var i :| 0 <= i < |s| && s[i] == v;
  }

  /**
   * Python's `list.remove(x)`: deletes the first occurrence of `x`.
   * (On a missing `x` Python raises; callers here never let that happen,
   * and the list is then returned unchanged.)
   */
  function RemoveFirst<T(==)>(s: seq<T>, x: T): seq<T> {
    if |s| == 0 then s
    else if s[0] == x then s[1..]
    else [s[0]] + RemoveFirst(s[1..], x)
  }

  /**
   * `list.remove(x)` takes out exactly one occurrence of a present `x`
   * (one element fewer), and changes nothing when `x` is absent.
   */
  lemma {:induction false} RemoveFirstSpec<T>(s: seq<T>, x: T)
    ensures multiset(RemoveFirst(s, x)) <= multiset(s)
    ensures x in s ==>
      multiset(RemoveFirst(s, x)) + multiset{x} == multiset(s) && |RemoveFirst(s, x)| == |s| - 1
    ensures x !in s ==> RemoveFirst(s, x) == s
  {
    if |s| > 0 {
      assert s == [s[0]] + s[1..];
      assert multiset(s) == multiset{s[0]} + multiset(s[1..]);
      if s[0] != x {
        var t := RemoveFirst(s[1..], x);
        RemoveFirstSpec(s[1..], x);
        assert multiset(RemoveFirst(s, x)) == multiset{s[0]} + multiset(t);
        assert x in s ==> x in s[1..];
      }
    }
  }

  /** `list.remove` past a first element that differs. */
  lemma RemoveFirstCons<T>(s: seq<T>, x: T)
    requires |s| > 0 && s[0] != x
    ensures x in s ==> x in s[1..]
    ensures |RemoveFirst(s, x)| > 0 && RemoveFirst(s, x)[0] == s[0]
    ensures RemoveFirst(s, x)[1..] == RemoveFirst(s[1..], x)
  {
    assert RemoveFirst(s, x) == [s[0]] + RemoveFirst(s[1..], x);
  }

  /** `list.remove` of a value the front part does not hold. */
  lemma {:induction false} RemoveFirstAppend<T>(a: seq<T>, b: seq<T>, x: T)
    requires x !in a
    ensures RemoveFirst(a + b, x) == a + RemoveFirst(b, x)
  {
    if |a| == 0 {
      assert a + b == b;
    } else {
      calc {
        RemoveFirst(a + b, x);
        [a[0]] + RemoveFirst((a + b)[1..], x);
        { assert (a + b)[1..] == a[1..] + b; }
        [a[0]] + RemoveFirst(a[1..] + b, x);
        { RemoveFirstAppend(a[1..], b, x); }
        [a[0]] + (a[1..] + RemoveFirst(b, x));
        { assert a == [a[0]] + a[1..]; }
        a + RemoveFirst(b, x);
      }
    }
  }

  /** Removing one occurrence keeps a sorted sequence sorted. */
  lemma {:induction false} RemoveFirstSorted(s: seq<nat>, x: nat)
    requires Sorted(s)
    ensures Sorted(RemoveFirst(s, x))
  {
    if |s| == 0 {
    } else if s[0] == x {
      TailSorted(s);
    } else {
      TailSorted(s);
      RemoveFirstSorted(s[1..], x);
      var t := RemoveFirst(s[1..], x);
      RemoveFirstSpec(s[1..], x);
      forall k | 0 <= k < |t| ensures s[0] <= t[k] {
        assert t[k] in multiset(t);
        assert t[k] in s by {
          assert s == [s[0]] + s[1..];
        }
        SortedFirst(s, t[k]);
      }
      ConsSorted(s[0], t);
    }
  }

  /** The tail of a sorted sequence is sorted. */
  lemma TailSorted(s: seq<nat>)
    requires Sorted(s) && |s| > 0
    ensures Sorted(s[1..])
  {
    forall i, j | 0 <= i < j < |s| - 1 ensures s[1..][i] <= s[1..][j] {
      assert s[1..][i] == s[i + 1] && s[1..][j] == s[j + 1];
    }
  }

  /** Prepending a lower bound keeps a sorted sequence sorted. */
  lemma ConsSorted(x: nat, t: seq<nat>)
    requires Sorted(t)
    requires forall k :: 0 <= k < |t| ==> x <= t[k]
    ensures Sorted([x] + t)
  {
    var r := [x] + t;
    forall i, j | 0 <= i < j < |r| ensures r[i] <= r[j] {
      assert r[j] == t[j - 1];
      if i > 0 {
        assert r[i] == t[i - 1];
      }
    }
  }

  /** `for x in xs: s.remove(x)`, one first occurrence per element, in order. */
  function RemoveAll<T(==)>(s: seq<T>, xs: seq<T>): seq<T> {
    if |xs| == 0 then s
    else RemoveFirst(RemoveAll(s, xs[..|xs| - 1]), xs[|xs| - 1])
  }

  /** Removing the values of a sub-multiset one by one takes out exactly those values. */
  lemma {:induction false} RemoveAllSpec<T>(s: seq<T>, xs: seq<T>)
    requires multiset(xs) <= multiset(s)
    ensures multiset(RemoveAll(s, xs)) + multiset(xs) == multiset(s)
  {
    if |xs| > 0 {
      var init, x := xs[..|xs| - 1], xs[|xs| - 1];
      assert xs == init + [x];
      var t := RemoveAll(s, init);
      assert multiset(init) <= multiset(s);
      RemoveAllSpec(s, init);
      assert x in t by {
        assert multiset(t)[x] + multiset(init)[x] == multiset(s)[x];
        assert multiset(init)[x] + 1 == multiset(xs)[x];
      }
      RemoveFirstSpec(t, x);
    }
  }

  /**
   * Removing values one by one only ever takes values out, whether or not
   * they are present (an absent value is skipped).
   */
  lemma {:induction false} RemoveAllShrinks<T>(s: seq<T>, xs: seq<T>)
    ensures multiset(RemoveAll(s, xs)) <= multiset(s)
  {
    if |xs| > 0 {
      RemoveAllShrinks(s, xs[..|xs| - 1]);
      RemoveFirstSpec(RemoveAll(s, xs[..|xs| - 1]), xs[|xs| - 1]);
    }
  }

  /** One more removal extends the removed prefix. */
  lemma RemoveAllStep<T>(s: seq<T>, xs: seq<T>, j: nat)
    requires j < |xs|
    ensures RemoveFirst(RemoveAll(s, xs[..j]), xs[j]) == RemoveAll(s, xs[..j + 1])
  {
    assert xs[..j + 1][..j] == xs[..j];
  }

  /**
   * Removing the values of a sub-multiset one by one never misses: the next
   * value is still there (Python's `list.remove` raises no `ValueError`).
   */
  lemma RemoveAllPresent<T>(s: seq<T>, xs: seq<T>, j: nat)
    requires j < |xs| && multiset(xs) <= multiset(s)
    ensures xs[j] in RemoveAll(s, xs[..j])
  {
    var pre, x := xs[..j], xs[j];
    assert xs == pre + [x] + xs[j + 1..];
    assert multiset(xs)[x] >= multiset(pre)[x] + 1;
    assert multiset(pre) <= multiset(s);
    var rest := RemoveAll(s, pre);
    RemoveAllSpec(s, pre);
    assert multiset(rest)[x] + multiset(pre)[x] == multiset(s)[x];
    assert multiset(rest)[x] >= 1;
  }

  /** The values of a prefix one longer. */
  lemma ElemsStep<T>(xs: seq<T>, j: nat)
    requires j < |xs|
    ensures Elems(xs[..j + 1]) == Elems(xs[..j]) + {xs[j]}
  {
    assert xs[..j + 1] == xs[..j] + [xs[j]];
  }

  /** In a sequence without repeats, no element occurs before its own index. */
  lemma DistinctFresh<T(!new)>(xs: seq<T>, j: nat)
    requires j < |xs| && Distinct(xs)
    ensures xs[j] !in xs[..j]
  {
    assert xs == xs[..j] + [xs[j]] + xs[j + 1..];
    assert multiset(xs)[xs[j]] >= multiset(xs[..j])[xs[j]] + 1;
  }

  /** Removing elements one by one keeps a sorted sequence sorted. */
  lemma {:induction false} RemoveAllSorted(s: seq<nat>, xs: seq<nat>)
    requires Sorted(s)
    ensures Sorted(RemoveAll(s, xs))
  {
    if |xs| > 0 {
      RemoveAllSorted(s, xs[..|xs| - 1]);
      RemoveFirstSorted(RemoveAll(s, xs[..|xs| - 1]), xs[|xs| - 1]);
    }
  }

  /** Sorting in extra values and then removing them gives back a sorted sequence. */
  lemma SortRemoveAll(s: seq<nat>, xs: seq<nat>)
    requires Sorted(s)
    ensures RemoveAll(Sort(s + xs), xs) == s
  {
    var t := RemoveAll(Sort(s + xs), xs);
    assert multiset(s + xs) == multiset(s) + multiset(xs);
    SortSpec(s + xs);
    RemoveAllSpec(Sort(s + xs), xs);
    MultisetCancel(multiset(t), multiset(s), multiset(xs));
    RemoveAllSorted(Sort(s + xs), xs);
    SortedUnique(t, s);
  }

  /** A concatenation without repeats has repeat-free, disjoint parts. */
  lemma DistinctAppend<T(!new)>(a: seq<T>, b: seq<T>)
    requires Distinct(a + b)
    ensures Distinct(a) && Distinct(b)
    ensures forall x :: x in a ==> x !in b
  {
    assert multiset(a + b) == multiset(a) + multiset(b);
    forall x ensures multiset(a)[x] <= 1 && multiset(b)[x] <= 1 {
      assert multiset(a + b)[x] == multiset(a)[x] + multiset(b)[x];
    }
    forall x | x in a ensures x !in b {
      assert multiset(a)[x] >= 1;
      assert multiset(a + b)[x] == multiset(a)[x] + multiset(b)[x];
    }
  }

  /** Multiset sums cancel. */
  lemma MultisetCancel<T>(a: multiset<T>, b: multiset<T>, c: multiset<T>)
    requires a + c == b + c
    ensures a == b
  {
    forall x ensures a[x] == b[x] {
      assert (a + c)[x] == (b + c)[x];
    }
  }

  /** `list.remove` of a value held once: it is gone, and everything else stays, once. */
  lemma RemoveFirstDistinct<T(!new)>(s: seq<T>, x: T)
    requires Distinct(s) && x in s
    ensures x !in RemoveFirst(s, x) && Distinct(RemoveFirst(s, x))
    ensures forall y :: y in s && y != x ==> y in RemoveFirst(s, x)
  {
    var r := RemoveFirst(s, x);
    RemoveFirstSpec(s, x);
    DistinctSub(r, s);
    forall y | y in s && y != x ensures y in r {
      assert multiset(s)[y] == multiset(r)[y] + multiset{x}[y];
    }
    assert multiset(s)[x] == multiset(r)[x] + multiset{x}[x];
  }

  /** Dropping occurrences cannot introduce a repeat. */
  lemma DistinctSub<T(!new)>(a: seq<T>, b: seq<T>)
    requires Distinct(b) && multiset(a) <= multiset(b)
    ensures Distinct(a)
  {
    forall x ensures multiset(a)[x] <= 1 {
      assert multiset(a)[x] <= multiset(b)[x];
    }
  }
}
