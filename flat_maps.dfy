/**
 * Spreading a sequence of items over ring positions: `FlatMap` lists the
 * positions of every item in order, `ClaimAll` maps each position to the
 * last item generating it. The ring instantiates the position function with
 * `_node_keys`; the lemmas here hold for any position function.
 */
module FlatMaps {
  import opened Seqs

  /** The positions of every item of `s`, item after item. */
  function FlatMap<T>(f: T -> seq<nat>, s: seq<T>): seq<nat> {
    if |s| == 0 then []
    else FlatMap(f, s[..|s| - 1]) + f(s[|s| - 1])
  }

  /** Every position in `ks` mapped to `v`. */
  function Claim<T>(ks: seq<nat>, v: T): map<nat, T> {
    map k | k in ks :: v
  }

  /** `m` after mapping the positions of every item of `s` to it, item after item (later writes win). */
  function ClaimAll<T>(f: T -> seq<nat>, m: map<nat, T>, s: seq<T>): map<nat, T> {
    if |s| == 0 then m
    else ClaimAll(f, m, s[..|s| - 1]) + Claim(f(s[|s| - 1]), s[|s| - 1])
  }

  /** Spreading two batches appends their positions batch after batch. */
  lemma {:induction false} FlatMapAppend<T>(f: T -> seq<nat>, a: seq<T>, b: seq<T>)
    ensures FlatMap(f, a + b) == FlatMap(f, a) + FlatMap(f, b)
  {
    if |b| == 0 {
      assert a + b == a;
    } else {
      var b' := b[..|b| - 1];
      assert (a + b)[..|a + b| - 1] == a + b';
      FlatMapAppend(f, a, b');
    }
  }

  /** The positions of the first item, then those of the rest. */
  lemma FlatMapCons<T>(f: T -> seq<nat>, s: seq<T>)
    requires |s| > 0
    ensures FlatMap(f, s) == f(s[0]) + FlatMap(f, s[1..])
  {
    assert [s[0]][..0] == [];
    assert FlatMap(f, [s[0]]) == [] + f(s[0]) == f(s[0]);
    FlatMapAppend(f, [s[0]], s[1..]);
    assert s == [s[0]] + s[1..];
  }

  /** Position functions agreeing on the items spread them alike. */
  lemma {:induction false} FlatMapFrame<T>(f: T -> seq<nat>, g: T -> seq<nat>, s: seq<T>)
    requires forall x :: x in s ==> f(x) == g(x)
    ensures FlatMap(f, s) == FlatMap(g, s)
  {
    if |s| > 0 {
      assert s[|s| - 1] in s;
      FlatMapFrame(f, g, s[..|s| - 1]);
    }
  }

  /** Taking one item out takes exactly its positions out, as multisets. */
  lemma {:induction false} FlatMapRemoveFirst<T>(f: T -> seq<nat>, s: seq<T>, x: T)
    requires x in s
    ensures multiset(FlatMap(f, s)) == multiset(FlatMap(f, RemoveFirst(s, x))) + multiset(f(x))
  {
    FlatMapCons(f, s);
    if s[0] != x {
      RemoveFirstCons(s, x);
      FlatMapRemoveFirst(f, s[1..], x);
      FlatMapCons(f, RemoveFirst(s, x));
      assert multiset(f(s[0]) + FlatMap(f, s[1..]))
          == multiset(f(s[0])) + multiset(FlatMap(f, s[1..]));
    }
  }

  /** An item's positions are among the positions of any sequence holding it. */
  lemma {:induction false} FlatMapMember<T>(f: T -> seq<nat>, s: seq<T>, x: T, k: nat)
    requires x in s && k in f(x)
    ensures k in FlatMap(f, s)
  {
    if s[|s| - 1] != x {
      assert x in s[..|s| - 1] by {
        assert s == s[..|s| - 1] + [s[|s| - 1]];
      }
      FlatMapMember(f, s[..|s| - 1], x, k);
    }
  }

  /** When no position repeats, two different items share no position. */
  lemma FlatMapDisjoint<T(!new)>(f: T -> seq<nat>, s: seq<T>, x: T, y: T, k: nat)
    requires Distinct(FlatMap(f, s))
    requires x in s && y in s && x != y && k in f(y)
    ensures k !in f(x)
  {
    var rest := RemoveFirst(s, x);
    FlatMapRemoveFirst(f, s, x);
    RemoveFirstSpec(s, x);
    assert y in rest by {
      assert multiset(s)[y] == multiset(rest)[y] + multiset{x}[y];
    }
    FlatMapMember(f, rest, y, k);
    assert multiset(FlatMap(f, s))[k] == multiset(FlatMap(f, rest))[k] + multiset(f(x))[k];
    assert multiset(f(x))[k] == 0;
  }

  /**
   * A position is mapped after `ClaimAll` exactly when it was mapped before
   * or some item generates it; a position no item generates keeps its value.
   */
  lemma {:induction false} ClaimAllSpec<T>(f: T -> seq<nat>, m: map<nat, T>, s: seq<T>)
    ensures forall k :: k in ClaimAll(f, m, s) <==> k in m || k in FlatMap(f, s)
    ensures forall k :: k in m && k !in FlatMap(f, s) ==> ClaimAll(f, m, s)[k] == m[k]
  {
    if |s| > 0 {
      ClaimAllSpec(f, m, s[..|s| - 1]);
    }
  }

  /** A position some item generates is mapped to an item generating it. */
  lemma {:induction false} ClaimAllOwner<T>(f: T -> seq<nat>, m: map<nat, T>, s: seq<T>, k: nat)
    requires k in FlatMap(f, s)
    ensures k in ClaimAll(f, m, s) && ClaimAll(f, m, s)[k] in s
    ensures k in f(ClaimAll(f, m, s)[k])
  {
    var init, last := s[..|s| - 1], s[|s| - 1];
    assert s == init + [last];
    if k !in f(last) {
      ClaimAllOwner(f, m, init, k);
    }
  }

  /** Spreading a single item. */
  lemma Single<T>(f: T -> seq<nat>, m: map<nat, T>, x: T)
    ensures FlatMap(f, [x]) == f(x)
    ensures ClaimAll(f, m, [x]) == m + Claim(f(x), x)
  {
    assert [x][..0] == [];
    assert FlatMap(f, [x]) == [] + f(x);
  }

  /** One more item extends the spread by its positions. */
  lemma SnocStep<T>(f: T -> seq<nat>, m: map<nat, T>, s: seq<T>, lo: nat, i: nat)
    requires lo <= i < |s|
    ensures FlatMap(f, s[lo..i + 1]) == FlatMap(f, s[lo..i]) + f(s[i])
    ensures ClaimAll(f, m, s[lo..i + 1]) == ClaimAll(f, m, s[lo..i]) + Claim(f(s[i]), s[i])
  {
    assert s[lo..i + 1][..i - lo] == s[lo..i];
  }
}
