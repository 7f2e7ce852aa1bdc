/**
 * First-seen filtering: walk a sequence and keep an element only the first
 * time its key appears.  Both deduplication stages are instances, with the
 * triple and with the context as key.
 */
module FirstSeen {

  /** The keys carried by the elements of `xs`. */
  ghost function Keys<T, K>(xs: seq<T>, key: T -> K): set<K>
  {
    set i | 0 <= i < |xs| :: key(xs[i])
  }

  /** `xs[i]` is the first element of `xs` that carries its key. */
  ghost predicate IsFirst<T, K>(xs: seq<T>, key: T -> K, i: nat)
    requires i < |xs|
  {
    forall j :: 0 <= j < i ==> key(xs[j]) != key(xs[i])
  }

  /** The elements of `xs` that no earlier element shares a key with, in order. */
  ghost function KeepFirst<T, K>(xs: seq<T>, key: T -> K): seq<T>
  {
    if xs == [] then []
    else if IsFirst(xs, key, |xs| - 1) then KeepFirst(xs[..|xs| - 1], key) + [xs[|xs| - 1]]
    else KeepFirst(xs[..|xs| - 1], key)
  }

  /** No two elements of `xs` carry the same key. */
  ghost predicate Distinct<T, K>(xs: seq<T>, key: T -> K)
  {
    forall i, j :: 0 <= i < j < |xs| ==> key(xs[i]) != key(xs[j])
  }

  /** `ys` lists the elements of `xs` found at the strictly increasing positions `idx`. */
  ghost predicate Picks<T>(ys: seq<T>, xs: seq<T>, idx: seq<nat>)
  {
    && |idx| == |ys|
    && (forall k :: 0 <= k < |idx| ==> idx[k] < |xs| && ys[k] == xs[idx[k]])
    && (forall k, l :: 0 <= k < l < |idx| ==> idx[k] < idx[l])
  }

  /** `ys` is `xs` with some elements dropped and the rest in their order. */
  ghost predicate IsSubseq<T>(ys: seq<T>, xs: seq<T>)
  {
    exists idx :: Picks(ys, xs, idx)
  }

  /** `ys` is exactly the elements of `xs` at the positions where a key is seen first. */
  ghost predicate FirstsOf<T, K>(ys: seq<T>, xs: seq<T>, key: T -> K)
  {
    exists idx :: Picks(ys, xs, idx) && forall i :: 0 <= i < |xs| ==> (i in idx <==> IsFirst(xs, key, i))
  }

  /** Appending one element: it is kept exactly when its key is new. */
  lemma KeepFirstSnoc<T, K>(xs: seq<T>, x: T, key: T -> K)
    ensures Keys(xs + [x], key) == Keys(xs, key) + {key(x)}
    ensures KeepFirst(xs + [x], key)
         == if key(x) in Keys(xs, key) then KeepFirst(xs, key) else KeepFirst(xs, key) + [x]
  {
    var ys := xs + [x];
    assert ys[..|ys| - 1] == xs;
    assert ys[|xs|] == x;
    forall k | k in Keys(ys, key)
      ensures k in Keys(xs, key) + {key(x)}
    {
      var i :| 0 <= i < |ys| && key(ys[i]) == k;
      if i < |xs| { assert ys[i] == xs[i]; }
    }
    forall k | k in Keys(xs, key) + {key(x)}
      ensures k in Keys(ys, key)
    {
      if k in Keys(xs, key) {
        var i :| 0 <= i < |xs| && key(xs[i]) == k;
        assert ys[i] == xs[i];
      }
    }
    if key(x) in Keys(xs, key) {
      var i :| 0 <= i < |xs| && key(xs[i]) == key(x);
      assert ys[i] == xs[i];
    } else {
      forall j | 0 <= j < |xs|
        ensures key(ys[j]) != key(ys[|xs|])
      {
        assert ys[j] == xs[j];
      }
    }
  }

  /** The filter keeps exactly the first carriers of each key, in their order. */
  lemma {:induction false} KeepFirstIsFirsts<T, K>(xs: seq<T>, key: T -> K)
    ensures FirstsOf(KeepFirst(xs, key), xs, key)
  {
    if xs == [] {
      assert Picks([], xs, []);
    } else {
      var n := |xs| - 1;
      var init := xs[..n];
      KeepFirstIsFirsts(init, key);
      var idx: seq<nat> :| Picks(KeepFirst(init, key), init, idx)
        && forall i :: 0 <= i < |init| ==> (i in idx <==> IsFirst(init, key, i));
      forall i | 0 <= i < n
        ensures IsFirst(xs, key, i) == IsFirst(init, key, i)
      {
        assert forall j :: 0 <= j <= i ==> xs[j] == init[j];
      }
      var ys := KeepFirst(xs, key);
      if IsFirst(xs, key, n) {
        var idx' := idx + [n];
        assert ys == KeepFirst(init, key) + [xs[n]];
        assert forall k :: 0 <= k < |idx| ==> idx[k] < n;
        assert Picks(ys, xs, idx');
        assert forall i :: 0 <= i < |xs| ==> (i in idx' <==> IsFirst(xs, key, i));
      } else {
        assert ys == KeepFirst(init, key);
        assert Picks(ys, xs, idx);
        assert forall i :: 0 <= i < |xs| ==> (i in idx <==> IsFirst(xs, key, i));
      }
    }
  }

  /** The filtered sequence is an order-preserving subsequence of the input. */
  lemma KeepFirstSubseq<T, K>(xs: seq<T>, key: T -> K)
    ensures IsSubseq(KeepFirst(xs, key), xs)
  {
    KeepFirstIsFirsts(xs, key);
  }

  /** Filtering by a key loses no value of any coarser key: every `coarse` key
      of the input is still carried by some kept element. */
  lemma {:induction false} KeepFirstKeysThrough<T, K, L>(xs: seq<T>, fine: T -> K, coarse: T -> L, h: K -> L)
    requires forall x :: coarse(x) == h(fine(x))
    ensures Keys(KeepFirst(xs, fine), coarse) == Keys(xs, coarse)
  {
    if xs != [] {
      var init, x := xs[..|xs| - 1], xs[|xs| - 1];
      assert xs == init + [x];
      KeepFirstSnoc(init, x, fine);
      KeepFirstSnoc(init, x, coarse);
      KeepFirstKeysThrough(init, fine, coarse, h);
      var kept := KeepFirst(init, fine);
      if fine(x) in Keys(init, fine) {
        var i :| 0 <= i < |init| && fine(init[i]) == fine(x);
        assert coarse(init[i]) == coarse(x);
      } else {
        KeepFirstSnoc(kept, x, coarse);
      }
    }
  }

  /** Every key of the input is still carried by the output. */
  lemma KeepFirstKeys<T, K>(xs: seq<T>, key: T -> K)
    ensures Keys(KeepFirst(xs, key), key) == Keys(xs, key)
  {
    KeepFirstKeysThrough(xs, key, key, (k: K) => k);
  }

  /** No two kept elements share a key. */
  lemma {:induction false} KeepFirstDistinct<T, K>(xs: seq<T>, key: T -> K)
    ensures Distinct(KeepFirst(xs, key), key)
  {
    if xs != [] {
      var init, x := xs[..|xs| - 1], xs[|xs| - 1];
      assert xs == init + [x];
      KeepFirstSnoc(init, x, key);
      KeepFirstDistinct(init, key);
      if key(x) !in Keys(init, key) {
        var kept := KeepFirst(init, key);
        KeepFirstKeys(init, key);
        var ys := kept + [x];
        forall i, j | 0 <= i < j < |ys|
          ensures key(ys[i]) != key(ys[j])
        {
          if j == |kept| {
            assert ys[i] == kept[i];
            assert key(kept[i]) in Keys(kept, key);
          } else {
            assert ys[i] == kept[i] && ys[j] == kept[j];
          }
        }
      }
    }
  }

  /** A sequence whose keys are already distinct passes unchanged. */
  lemma {:induction false} KeepFirstOfDistinct<T, K>(xs: seq<T>, key: T -> K)
    requires Distinct(xs, key)
    ensures KeepFirst(xs, key) == xs
  {
    if xs != [] {
      var init, x := xs[..|xs| - 1], xs[|xs| - 1];
      assert xs == init + [x];
      KeepFirstSnoc(init, x, key);
      assert Distinct(init, key) by {
        forall i, j | 0 <= i < j < |init|
          ensures key(init[i]) != key(init[j])
        {
          assert init[i] == xs[i] && init[j] == xs[j];
        }
      }
      KeepFirstOfDistinct(init, key);
    }
  }

  /** Filtering twice is filtering once. */
  lemma KeepFirstIdempotent<T, K>(xs: seq<T>, key: T -> K)
    ensures KeepFirst(KeepFirst(xs, key), key) == KeepFirst(xs, key)
  {
    KeepFirstDistinct(xs, key);
    KeepFirstOfDistinct(KeepFirst(xs, key), key);
  }

  /** When the `coarse` key is a function of the `fine` key, filtering by
      `fine` first changes nothing about filtering by `coarse`. */
  lemma {:induction false} KeepFirstCoarsen<T, K, L>(xs: seq<T>, fine: T -> K, coarse: T -> L, h: K -> L)
    requires forall x :: coarse(x) == h(fine(x))
    ensures KeepFirst(KeepFirst(xs, fine), coarse) == KeepFirst(xs, coarse)
  {
    if xs != [] {
      var init, x := xs[..|xs| - 1], xs[|xs| - 1];
      assert xs == init + [x];
      KeepFirstSnoc(init, x, fine);
      KeepFirstSnoc(init, x, coarse);
      KeepFirstCoarsen(init, fine, coarse, h);
      var kept := KeepFirst(init, fine);
      if fine(x) in Keys(init, fine) {
        var i :| 0 <= i < |init| && fine(init[i]) == fine(x);
        assert coarse(init[i]) == coarse(x);
      } else {
        KeepFirstSnoc(kept, x, coarse);
        KeepFirstKeysThrough(init, fine, coarse, h);
      }
    }
  }

  /** Two strictly increasing position lists with the same members are equal. */
  lemma {:induction false} IncreasingUnique(a: seq<nat>, b: seq<nat>)
    requires forall k, l :: 0 <= k < l < |a| ==> a[k] < a[l]
    requires forall k, l :: 0 <= k < l < |b| ==> b[k] < b[l]
    requires forall i :: i in a <==> i in b
    ensures a == b
  {
    if a == [] {
      assert forall i :: i !in b;
    } else {
      assert a[0] in a;
      var j :| 0 <= j < |b| && b[j] == a[0];
      assert b[0] in b;
      var i :| 0 <= i < |a| && a[i] == b[0];
      assert forall k :: 0 < k < |a| ==> a[0] < a[k];
      assert forall k :: 0 < k < |b| ==> b[0] < b[k];
      assert i == 0 && j == 0;
      forall m
        ensures m in a[1..] <==> m in b[1..]
      {
        if m in a[1..] {
          var k :| 1 <= k < |a| && a[k] == m;
          assert m != a[0] by { assert a[0] < a[k]; }
          assert m in b;
          var k' :| 0 <= k' < |b| && b[k'] == m;
          assert b[1..][k' - 1] == m;
        }
        if m in b[1..] {
          var k :| 1 <= k < |b| && b[k] == m;
          assert m != b[0] by { assert b[0] < b[k]; }
          assert m in a;
          var k' :| 0 <= k' < |a| && a[k'] == m;
          assert a[1..][k' - 1] == m;
        }
      }
      IncreasingUnique(a[1..], b[1..]);
      assert a == [a[0]] + a[1..] && b == [b[0]] + b[1..];
    }
  }

  /** `FirstsOf` pins the filter down: a sequence made of exactly the first
      carriers of each key, in input order, is the filter's output and nothing else. */
  lemma FirstsOfIsKeepFirst<T, K>(ys: seq<T>, xs: seq<T>, key: T -> K)
    ensures FirstsOf(ys, xs, key) <==> ys == KeepFirst(xs, key)
  {
    KeepFirstIsFirsts(xs, key);
    if FirstsOf(ys, xs, key) {
      var zs := KeepFirst(xs, key);
      var a: seq<nat> :| Picks(ys, xs, a) && forall i :: 0 <= i < |xs| ==> (i in a <==> IsFirst(xs, key, i));
      var b: seq<nat> :| Picks(zs, xs, b) && forall i :: 0 <= i < |xs| ==> (i in b <==> IsFirst(xs, key, i));
      forall i
        ensures i in a <==> i in b
      {
        if i in a { var k :| 0 <= k < |a| && a[k] == i; }
        if i in b { var k :| 0 <= k < |b| && b[k] == i; }
      }
      IncreasingUnique(a, b);
    }
  }
}
