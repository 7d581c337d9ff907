/**
 * The Kotlin collection operations the analysis is built from, on sequences:
 * `groupBy` (as an insertion-ordered key list plus one filtered list per key),
 * `flatten`, and the distinct-elements view of a list.
 */
module Collections {

  /** The elements of a list, as a set. */
  function Elements<T(!new)>(xs: seq<T>): (s: set<T>)
    ensures forall x :: x in s <==> x in xs
  {
    set x | x in xs
  }

  /** No element occurs twice. */
  predicate Distinct<T(==)>(xs: seq<T>) {
    forall i, j :: 0 <= i < j < |xs| ==> xs[i] != xs[j]
  }

  lemma SplitLast<T>(s: seq<T>)
    requires s != []
    ensures s == s[..|s| - 1] + [s[|s| - 1]]
  {
  }

  lemma AppendAssociative<T>(a: seq<T>, b: seq<T>, c: seq<T>)
    ensures a + b + c == a + (b + c)
  {
  }

  /** The last element of a non-empty list. */
  function Last<T>(xs: seq<T>): T
    requires xs != []
  {
    xs[|xs| - 1]
  }

  /**
   * The distinct keys of `xs`, in order of first appearance: the key order of
   * the `LinkedHashMap` that Kotlin's `groupBy` builds.
   */
  function KeysInOrder<T(!new), K(==,!new)>(xs: seq<T>, key: T -> K): (r: seq<K>)
    ensures Distinct(r)
    ensures forall k :: k in r <==> exists x :: x in xs && key(x) == k
    decreases |xs|
  {
    if xs == [] then []
    else
      var init := xs[..|xs| - 1];
      assert xs == init + [Last(xs)];
      var rest := KeysInOrder(init, key);
      if key(Last(xs)) in rest then rest else rest + [key(Last(xs))]
  }

  /** The elements of `xs` whose key is `k`, in their original order: one group of `groupBy`. */
  function Select<T(!new), K(==)>(xs: seq<T>, key: T -> K, k: K): (r: seq<T>)
    ensures |r| <= |xs|
    ensures forall x :: x in r <==> x in xs && key(x) == k
    decreases |xs|
  {
    if xs == [] then []
    else
      var init := xs[..|xs| - 1];
      assert xs == init + [Last(xs)];
      Select(init, key, k) + (if key(Last(xs)) == k then [Last(xs)] else [])
  }

  /**
   * Kotlin's `groupBy`: every element is filed under its key, every key that
   * occurs has a non-empty group, and a group holds only elements with its key.
   */
  function GroupBy<T(!new), K(==,!new)>(xs: seq<T>, key: T -> K): (m: map<K, seq<T>>)
    ensures m.Keys == Elements(KeysInOrder(xs, key))
    ensures forall x :: x in xs ==> key(x) in m && x in m[key(x)]
    ensures forall k :: k in m ==> m[k] != [] && forall x :: x in m[k] ==> x in xs && key(x) == k
  {
    var m := map k | k in KeysInOrder(xs, key) :: Select(xs, key, k);
    assert forall k :: k in m ==> m[k] != [] by {
      forall k | k in m ensures m[k] != [] {
        var x :| x in xs && key(x) == k;
        assert x in m[k];
      }
    }
    m
  }

  /** Kotlin's `flatten`: the blocks one after another. */
  function Concat<T>(blocks: seq<seq<T>>): (r: seq<T>)
    decreases |blocks|
  {
    if blocks == [] then [] else Concat(blocks[..|blocks| - 1]) + Last(blocks)
  }

  lemma {:induction false} ConcatMembership<T>(blocks: seq<seq<T>>, x: T)
    ensures x in Concat(blocks) <==> exists i :: 0 <= i < |blocks| && x in blocks[i]
    decreases |blocks|
  {
    if blocks != [] {
      var init := blocks[..|blocks| - 1];
      ConcatMembership(init, x);
      if x in Concat(init) {
        var i :| 0 <= i < |init| && x in init[i];
        assert x in blocks[i];
      }
      if exists i :: 0 <= i < |blocks| && x in blocks[i] {
        var i :| 0 <= i < |blocks| && x in blocks[i];
        if i < |init| { assert x in init[i]; }
      }
    }
  }

  /** Filtering distributes over concatenation: `Select` keeps the original order. */
  lemma {:induction false} SelectAppend<T(!new), K>(xs: seq<T>, ys: seq<T>, key: T -> K, k: K)
    ensures Select(xs + ys, key, k) == Select(xs, key, k) + Select(ys, key, k)
    decreases |ys|
  {
    if ys == [] {
      assert xs + ys == xs;
    } else {
      var init := ys[..|ys| - 1];
      assert (xs + ys)[..|xs + ys| - 1] == xs + init;
      SelectAppend(xs, init, key, k);
    }
  }

  /** A key that does not occur selects nothing. */
  lemma SelectAbsent<T(!new), K(!new)>(xs: seq<T>, key: T -> K, k: K)
    requires k !in KeysInOrder(xs, key)
    ensures Select(xs, key, k) == []
  {
  }

  /** A list whose every element has key `k0` is its own group, and no other key selects anything. */
  lemma {:induction false} SelectUniform<T(!new), K>(ys: seq<T>, key: T -> K, k0: K, k: K)
    requires forall y :: y in ys ==> key(y) == k0
    ensures Select(ys, key, k) == if k == k0 then ys else []
    decreases |ys|
  {
    if ys != [] {
      var init := ys[..|ys| - 1];
      assert ys == init + [Last(ys)];
      SelectUniform(init, key, k0, k);
    }
  }

  /** Appending a non-empty run of one fresh key adds exactly that key at the end of the key order. */
  lemma {:induction false} KeysAppendUniform<T(!new), K(!new)>(xs: seq<T>, ys: seq<T>, key: T -> K, k0: K)
    requires ys != []
    requires forall y :: y in ys ==> key(y) == k0
    requires k0 !in KeysInOrder(xs, key)
    ensures KeysInOrder(xs + ys, key) == KeysInOrder(xs, key) + [k0]
    decreases |ys|
  {
    var init := ys[..|ys| - 1];
    assert (xs + ys)[..|xs + ys| - 1] == xs + init;
    if init == [] {
      assert xs + init == xs;
    } else {
      KeysAppendUniform(xs, init, key, k0);
    }
  }

  /** After appending a run of one fresh key, that key selects the run and every other key what it selected before. */
  lemma SelectAfterUniform<T(!new), K(!new)>(prefix: seq<T>, block: seq<T>, key: T -> K, k0: K, k: K)
    requires forall y :: y in block ==> key(y) == k0
    requires k0 !in KeysInOrder(prefix, key)
    ensures Select(prefix + block, key, k) == if k == k0 then block else Select(prefix, key, k)
  {
    SelectAppend(prefix, block, key, k);
    SelectUniform(block, key, k0, k);
    if k == k0 {
      SelectAbsent(prefix, key, k0);
    }
  }

  /**
   * Flattening blocks that each carry one key, distinct from block to block,
   * and then grouping again gives back the keys in block order and each block
   * as its group: `groupBy` undoes `flatten` for such blocks.
   */
  lemma GroupedConcat<T(!new), K(!new)>(blocks: seq<seq<T>>, ks: seq<K>, key: T -> K)
    requires |blocks| == |ks| && Distinct(ks)
    requires forall i :: 0 <= i < |blocks| ==> blocks[i] != []
    requires forall i, x :: 0 <= i < |blocks| && x in blocks[i] ==> key(x) == ks[i]
    ensures KeysInOrder(Concat(blocks), key) == ks
    ensures forall i :: 0 <= i < |ks| ==> Select(Concat(blocks), key, ks[i]) == blocks[i]
  {
    GroupedConcatKeys(blocks, ks, key);
    forall i | 0 <= i < |ks| ensures Select(Concat(blocks), key, ks[i]) == blocks[i] {
      GroupedConcatSelect(blocks, ks, key, i);
    }
  }

  /** The key order of flattened single-key blocks is the block order. */
  lemma {:induction false} GroupedConcatKeys<T(!new), K(!new)>(blocks: seq<seq<T>>, ks: seq<K>, key: T -> K)
    requires |blocks| == |ks| && Distinct(ks)
    requires forall i :: 0 <= i < |blocks| ==> blocks[i] != []
    requires forall i, x :: 0 <= i < |blocks| && x in blocks[i] ==> key(x) == ks[i]
    ensures KeysInOrder(Concat(blocks), key) == ks
    decreases |blocks|
  {
    if blocks != [] {
      var n := |blocks| - 1;
      var init, initKeys := blocks[..n], ks[..n];
      assert forall i :: 0 <= i < n ==> init[i] == blocks[i] && initKeys[i] == ks[i];
      GroupedConcatKeys(init, initKeys, key);
      assert Concat(blocks) == Concat(init) + blocks[n];
      LastKeyFresh(ks);
      KeysAppendUniform(Concat(init), blocks[n], key, ks[n]);
      SplitLast(ks);
    }
  }

  /** Each key of flattened single-key blocks selects its own block. */
  lemma {:induction false} GroupedConcatSelect<T(!new), K(!new)>(blocks: seq<seq<T>>, ks: seq<K>, key: T -> K, i: nat)
    requires |blocks| == |ks| && Distinct(ks) && i < |ks|
    requires forall i :: 0 <= i < |blocks| ==> blocks[i] != []
    requires forall i, x :: 0 <= i < |blocks| && x in blocks[i] ==> key(x) == ks[i]
    ensures Select(Concat(blocks), key, ks[i]) == blocks[i]
    decreases |blocks|
  {
    var n := |blocks| - 1;
    var init, initKeys := blocks[..n], ks[..n];
    assert forall j :: 0 <= j < n ==> init[j] == blocks[j] && initKeys[j] == ks[j];
    GroupedConcatKeys(init, initKeys, key);
    assert Concat(blocks) == Concat(init) + blocks[n];
    LastKeyFresh(ks);
    SelectAfterUniform(Concat(init), blocks[n], key, ks[n], ks[i]);
    if i < n {
      GroupedConcatSelect(init, initKeys, key, i);
    }
  }

  /** In a duplicate-free list the last element does not occur before it. */
  lemma LastKeyFresh<K>(ks: seq<K>)
    requires ks != [] && Distinct(ks)
    ensures ks[|ks| - 1] !in ks[..|ks| - 1]
  {
    var n := |ks| - 1;
    forall i | 0 <= i < n ensures ks[..n][i] != ks[n] { }
  }

  /** A distinct list whose elements all are `x` and that holds `x` is `[x]`. */
  lemma DistinctSingleton<T(!new)>(xs: seq<T>, x: T)
    requires x in xs && Distinct(xs) && forall y :: y in xs ==> y == x
    ensures xs == [x]
  {
    assert Elements(xs) == {x};
    DistinctCardinality(xs);
    assert xs[0] in xs;
  }

  /** A duplicate-free list has as many elements as its set of elements. */
  lemma {:induction false} DistinctCardinality<T(!new)>(xs: seq<T>)
    requires Distinct(xs)
    ensures |Elements(xs)| == |xs|
    decreases |xs|
  {
    if xs != [] {
      var init := xs[..|xs| - 1];
      SplitLast(xs);
      LastKeyFresh(xs);
      assert Distinct(init);
      DistinctCardinality(init);
      assert Elements(xs) == Elements(init) + {xs[|xs| - 1]};
    }
  }
}
