/**
 * Insertion-ordered string-keyed associations, with the behaviour shared by a JavaScript `Map`
 * and by the own properties of a plain object: assigning to an existing key replaces its value
 * where it stands, assigning to a new key appends it, and iteration follows that order.
 */
module OrderedMap {
  import opened Wrappers

  type Assoc<V> = seq<(string, V)>

  function Keys<V>(m: Assoc<V>): (ks: seq<string>)
    ensures |ks| == |m|
    ensures forall i :: 0 <= i < |m| ==> ks[i] == m[i].0
  {
    seq(|m|, i requires 0 <= i < |m| => m[i].0)
  }

  /** No key is listed twice (what a Map and an object guarantee). */
  predicate DistinctKeys<V>(m: Assoc<V>) {
    forall i, j :: 0 <= i < j < |m| ==> m[i].0 != m[j].0
  }

  /** The position of the first entry for `k`. */
  function Find<V>(m: Assoc<V>, k: string): (i: nat)
    requires k in Keys(m)
    ensures i < |m| && m[i].0 == k
    ensures forall j :: 0 <= j < i ==> m[j].0 != k
  {
    if m[0].0 == k then 0
    else
      assert k in Keys(m[1..]) by {
        var j :| 0 <= j < |m| && Keys(m)[j] == k;
        assert Keys(m[1..])[j - 1] == k;
      }
      1 + Find(m[1..], k)
  }

  /** `m.get(k)`: `None` plays the part of `undefined`. */
  function Get<V>(m: Assoc<V>, k: string): (r: Option<V>)
    ensures r.None? <==> k !in Keys(m)
  {
    if k in Keys(m) then Some(m[Find(m, k)].1) else None
  }

  /** `m.set(k, v)` (equally `obj[k] = v` on an own property). */
  function Put<V>(m: Assoc<V>, k: string, v: V): (m': Assoc<V>)
    ensures Keys(m') == if k in Keys(m) then Keys(m) else Keys(m) + [k]
    ensures Get(m', k) == Some(v)
    ensures k !in Keys(m) ==> m' == m + [(k, v)]
    ensures DistinctKeys(m) ==> DistinctKeys(m')
  {
    if k in Keys(m) then
      var i := Find(m, k);
      var m' := m[i := (k, v)];
      assert Keys(m') == Keys(m);
      FindUnique(m', k, i);
      m'
    else
      var m' := m + [(k, v)];
      assert Keys(m') == Keys(m) + [k];
      FindUnique(m', k, |m|);
      m'
  }

  /** The first entry for `k` is the one at `i` when no entry before `i` is for `k`. */
  lemma FindUnique<V>(m: Assoc<V>, k: string, i: nat)
    requires i < |m| && m[i].0 == k
    requires forall j :: 0 <= j < i ==> m[j].0 != k
    ensures k in Keys(m) && Find(m, k) == i
  {
    assert Keys(m)[i] == k;
  }

  /** A put leaves every other key's value alone. */
  lemma GetPutOther<V>(m: Assoc<V>, k: string, v: V, k': string)
    requires k' != k
    ensures Get(Put(m, k, v), k') == Get(m, k')
  {
    var m' := Put(m, k, v);
    if k' in Keys(m) {
      var i := Find(m, k');
      assert m'[i] == m[i];
      forall j | 0 <= j < i ensures m'[j].0 != k' {
        assert Keys(m')[j] == Keys(m)[j] || (k !in Keys(m) && j == |m|);
      }
      FindUnique(m', k', i);
    }
  }

  /** `src.forEach((v, k) => dst.set(k, v))`: the entries of `src` are put into `dst` in order. */
  function Merge<V>(dst: Assoc<V>, src: Assoc<V>): Assoc<V>
  {
    if src == [] then dst
    else
      var last := src[|src| - 1];
      Put(Merge(dst, src[..|src| - 1]), last.0, last.1)
  }

  /** The value of the last entry for `k` in a list that may list a key several times. */
  function LastValue<V>(src: Assoc<V>, k: string): V
    requires k in Keys(src)
  {
    var last := src[|src| - 1];
    if last.0 == k then last.1
    else
      assert k in Keys(src[..|src| - 1]) by {
        var j :| 0 <= j < |src| && Keys(src)[j] == k;
        assert Keys(src[..|src| - 1])[j] == k;
      }
      LastValue(src[..|src| - 1], k)
  }

  lemma PutSameKeyTwice<V>(m: Assoc<V>, k: string, v: V, w: V)
    ensures Put(Put(m, k, v), k, w) == Put(m, k, w)
  {
    if k in Keys(m) {
      var i := Find(m, k);
      FindUnique(m[i := (k, v)], k, i);
    } else {
      FindUnique(m + [(k, v)], k, |m|);
    }
  }

  lemma FindInPrefix<V>(m: Assoc<V>, x: (string, V), k: string)
    requires k in Keys(m)
    ensures k in Keys(m + [x]) && Find(m + [x], k) == Find(m, k)
  {
    var i := Find(m, k);
    FindUnique(m + [x], k, i);
  }

  /** Two puts commute when the first key is already present (neither of them appends it). */
  lemma PutCommute<V>(m: Assoc<V>, k1: string, v1: V, k2: string, v2: V)
    requires k1 != k2 && k1 in Keys(m)
    ensures Put(Put(m, k1, v1), k2, v2) == Put(Put(m, k2, v2), k1, v1)
  {
    var i1 := Find(m, k1);
    var m1 := m[i1 := (k1, v1)];
    assert Put(m, k1, v1) == m1;
    if k2 in Keys(m) {
      var i2 := Find(m, k2);
      assert i1 != i2;
      var m2 := m[i2 := (k2, v2)];
      assert Put(m, k2, v2) == m2;
      FindUnique(m1, k2, i2);
      FindUnique(m2, k1, i1);
      assert m1[i2 := (k2, v2)] == m2[i1 := (k1, v1)];
    } else {
      assert k2 !in Keys(m1);
      FindInPrefix(m, (k2, v2), k1);
      assert (m + [(k2, v2)])[i1 := (k1, v1)] == m1 + [(k2, v2)];
    }
  }

  lemma {:induction false} MergeAppend<V>(dst: Assoc<V>, a: Assoc<V>, b: Assoc<V>)
    ensures Merge(dst, a + b) == Merge(Merge(dst, a), b)
    decreases |b|
  {
    if b == [] {
      assert a + b == a;
    } else {
      assert (a + b)[..|a + b| - 1] == a + b[..|b| - 1];
      MergeAppend(dst, a, b[..|b| - 1]);
    }
  }

  lemma {:induction false} MergeKeepsDistinct<V>(dst: Assoc<V>, src: Assoc<V>)
    requires DistinctKeys(dst)
    ensures DistinctKeys(Merge(dst, src))
    decreases |src|
  {
    if src != [] {
      MergeKeepsDistinct(dst, src[..|src| - 1]);
    }
  }

  lemma {:induction false} MergeKeepsKeys<V>(dst: Assoc<V>, src: Assoc<V>, k: string)
    requires k in Keys(dst)
    ensures k in Keys(Merge(dst, src))
    decreases |src|
  {
    if src != [] {
      MergeKeepsKeys(dst, src[..|src| - 1], k);
    }
  }

  /** Merging `dst` with `src` after a put into `src` equals merging first and putting afterwards. */
  lemma {:induction false} MergePut<V>(dst: Assoc<V>, m: Assoc<V>, k: string, v: V)
    requires DistinctKeys(m)
    ensures Merge(dst, Put(m, k, v)) == Put(Merge(dst, m), k, v)
    decreases |m|
  {
    if k !in Keys(m) {
      var m' := m + [(k, v)];
      assert m'[..|m'| - 1] == m;
    } else {
      var init, x := m[..|m| - 1], m[|m| - 1];
      assert m == init + [x];
      if x.0 == k {
        MergePutLast(dst, init, x, v);
      } else {
        var i := Find(m, k);
        assert i < |init| && Keys(init)[i] == k;
        MergePut(dst, init, k, v);
        MergePutEarlier(dst, init, x, k, v);
      }
    }
  }

  lemma MergePutLast<V>(dst: Assoc<V>, init: Assoc<V>, x: (string, V), v: V)
    requires DistinctKeys(init + [x])
    ensures Merge(dst, Put(init + [x], x.0, v)) == Put(Merge(dst, init + [x]), x.0, v)
  {
    var m := init + [x];
    var k := x.0;
    assert k !in Keys(init) by {
      forall j | 0 <= j < |init| ensures Keys(init)[j] != k {
        assert m[j].0 != m[|init|].0;
      }
    }
    FindUnique(m, k, |init|);
    assert Put(m, k, v) == init + [(k, v)];
    assert (init + [(k, v)])[..|init|] == init;
    assert m[..|init|] == init;
    PutSameKeyTwice(Merge(dst, init), k, x.1, v);
  }

  lemma MergePutEarlier<V>(dst: Assoc<V>, init: Assoc<V>, x: (string, V), k: string, v: V)
    requires k in Keys(init) && x.0 != k
    requires Merge(dst, Put(init, k, v)) == Put(Merge(dst, init), k, v)
    ensures Merge(dst, Put(init + [x], k, v)) == Put(Merge(dst, init + [x]), k, v)
  {
    PutInPrefix(init, x, k, v);
    MergeSnoc(dst, Put(init, k, v), x);
    MergeSnoc(dst, init, x);
    MergeHasSourceKeys(dst, init, k);
    PutCommute(Merge(dst, init), k, v, x.0, x.1);
  }

  /** Merging one more entry is one more put. */
  lemma MergeSnoc<V>(dst: Assoc<V>, s: Assoc<V>, x: (string, V))
    ensures Merge(dst, s + [x]) == Put(Merge(dst, s), x.0, x.1)
  {
    assert (s + [x])[..|s|] == s;
  }

  /** A put into the empty map gives the one entry. */
  lemma PutIntoEmpty<V>(k: string, v: V)
    ensures Put([], k, v) == [(k, v)]
  {
  }

  /** A put on the only key of a one-entry map replaces its value. */
  lemma PutOverSingle<V>(k: string, x: V, y: V)
    ensures Put([(k, x)], k, y) == [(k, y)]
  {
    assert Keys([(k, x)]) == [k];
  }

  /** Merging one more entry of `s` is one more put. */
  lemma MergePrefix<V>(dst: Assoc<V>, s: Assoc<V>, i: nat)
    requires i < |s|
    ensures Merge(dst, s[..i + 1]) == Put(Merge(dst, s[..i]), s[i].0, s[i].1)
  {
    assert s[..i + 1] == s[..i] + [s[i]];
    MergeSnoc(dst, s[..i], s[i]);
  }

  /** Replacing a key that an earlier entry already holds does not touch a later entry. */
  lemma PutInPrefix<V>(init: Assoc<V>, x: (string, V), k: string, v: V)
    requires k in Keys(init)
    ensures Put(init + [x], k, v) == Put(init, k, v) + [x]
  {
    FindInPrefix(init, x, k);
    var i := Find(init, k);
    assert (init + [x])[i := (k, v)] == init[i := (k, v)] + [x];
  }

  lemma {:induction false} MergeHasSourceKeys<V>(dst: Assoc<V>, src: Assoc<V>, k: string)
    requires k in Keys(src)
    ensures k in Keys(Merge(dst, src))
    decreases |src|
  {
    var last := src[|src| - 1];
    if last.0 != k {
      assert k in Keys(src[..|src| - 1]) by {
        var j :| 0 <= j < |src| && Keys(src)[j] == k;
        assert Keys(src[..|src| - 1])[j] == k;
      }
      MergeHasSourceKeys(dst, src[..|src| - 1], k);
    }
  }

  /**
   * Building a fresh map from `src` and then copying it into `dst` gives the same result as
   * putting the entries of `src` into `dst` directly.
   */
  lemma {:induction false} MergeThroughFresh<V>(dst: Assoc<V>, src: Assoc<V>)
    ensures Merge(dst, Merge([], src)) == Merge(dst, src)
    decreases |src|
  {
    if src != [] {
      var init, x := src[..|src| - 1], src[|src| - 1];
      MergeKeepsDistinct([], init);
      MergePut(dst, Merge([], init), x.0, x.1);
      MergeThroughFresh(dst, init);
    }
  }

  /** Copying a map without repeated keys into an empty map reproduces it. */
  lemma {:induction false} MergeIntoEmpty<V>(m: Assoc<V>)
    requires DistinctKeys(m)
    ensures Merge([], m) == m
    decreases |m|
  {
    if m != [] {
      var init, x := m[..|m| - 1], m[|m| - 1];
      MergeIntoEmpty(init);
      assert x.0 !in Keys(init) by {
        forall j | 0 <= j < |init| ensures Keys(init)[j] != x.0 {
          assert m[j].0 != m[|m| - 1].0;
        }
      }
      assert init + [x] == m;
    }
  }

  /** A key is listed in a non-empty list exactly when it is listed before the last entry or is the last entry's. */
  lemma KeysOfInit<V>(src: Assoc<V>, k: string)
    requires src != []
    ensures k in Keys(src) <==> k in Keys(src[..|src| - 1]) || k == src[|src| - 1].0
  {
    assert Keys(src) == Keys(src[..|src| - 1]) + [src[|src| - 1].0];
  }

  /** After the merge, each key of `src` holds its last value in `src`; other keys keep theirs. */
  lemma {:induction false} GetMerge<V>(dst: Assoc<V>, src: Assoc<V>, k: string)
    ensures Get(Merge(dst, src), k) == if k in Keys(src) then Some(LastValue(src, k)) else Get(dst, k)
    decreases |src|
  {
    if src != [] {
      var init, last := src[..|src| - 1], src[|src| - 1];
      GetMerge(dst, init, k);
      KeysOfInit(src, k);
      if last.0 != k {
        GetPutOther(Merge(dst, init), last.0, last.1, k);
      }
    }
  }

  /** A put only adds the entry it was given: every entry afterwards was there before or is the new one. */
  lemma PutEntries<V>(m: Assoc<V>, k: string, v: V)
    ensures forall e :: e in Put(m, k, v) ==> e in m || e == (k, v)
  {
    var m' := Put(m, k, v);
    forall e | e in m' ensures e in m || e == (k, v) {
      var n :| 0 <= n < |m'| && m'[n] == e;
      if k in Keys(m) {
        var i := Find(m, k);
        if n != i {
          assert e == m[n];
        }
      } else if n < |m| {
        assert e == m[n];
      }
    }
  }

  /** A merge invents nothing: every entry of the result comes from `dst` or from `src`. */
  lemma {:induction false} MergeEntries<V>(dst: Assoc<V>, src: Assoc<V>)
    ensures forall e :: e in Merge(dst, src) ==> e in dst || e in src
    decreases |src|
  {
    if src != [] {
      var init, last := src[..|src| - 1], src[|src| - 1];
      MergeEntries(dst, init);
      PutEntries(Merge(dst, init), last.0, last.1);
      assert forall e :: e in init ==> e in src;
    }
  }

  /** When every entry for `k` carries `v`, the last one does too. */
  lemma {:induction false} LastValueUniform<V>(src: Assoc<V>, k: string, v: V)
    requires k in Keys(src)
    requires forall e :: e in src && e.0 == k ==> e.1 == v
    ensures LastValue(src, k) == v
    decreases |src|
  {
    var init, last := src[..|src| - 1], src[|src| - 1];
    if last.0 != k {
      assert k in Keys(init) by {
        var j :| 0 <= j < |src| && Keys(src)[j] == k;
        assert Keys(init)[j] == k;
      }
      assert forall e :: e in init ==> e in src;
      LastValueUniform(init, k, v);
    }
  }
}
