/**
 * Python's insertion-ordered `dict` with string keys, as an association list.
 * Assigning to a key that is present overwrites its value in place; assigning to
 * a new key appends it at the end. `dict.update` assigns the other dict's pairs
 * one after the other.
 */
module Assoc {
  import opened Wrappers

  function Keys<V>(a: seq<(string, V)>): (ks: seq<string>)
    ensures |ks| == |a|
    ensures forall i :: 0 <= i < |a| ==> ks[i] == a[i].0
  {
    if a == [] then [] else [a[0].0] + Keys(a[1..])
  }

  /** Keys are pairwise distinct: the shape of every Python dict. */
  ghost predicate UniqueKeys<V>(a: seq<(string, V)>) {
    forall i, j :: 0 <= i < j < |a| ==> a[i].0 != a[j].0
  }

  /** Position of key `k`, or -1 when absent. */
  function IndexOf<V>(a: seq<(string, V)>, k: string): (i: int)
    ensures -1 <= i < |a|
    ensures i >= 0 ==> a[i].0 == k && forall j :: 0 <= j < i ==> a[j].0 != k
    ensures i == -1 <==> k !in Keys(a)
  {
    if a == [] then -1
    else if a[0].0 == k then 0
    else
      var j := IndexOf(a[1..], k);
      if j < 0 then -1 else j + 1
  }

  /** `d.get(k)`. */
  function Get<V>(a: seq<(string, V)>, k: string): (r: Option<V>)
    ensures r.None? <==> k !in Keys(a)
  {
    var i := IndexOf(a, k);
    if i < 0 then None else Some(a[i].1)
  }

  /** `d[k] = v`. */
  function Put<V>(a: seq<(string, V)>, k: string, v: V): (r: seq<(string, V)>)
    ensures k in Keys(a) ==> |r| == |a| && Keys(r) == Keys(a)
    ensures k !in Keys(a) ==> r == a + [(k, v)]
  {
    var i := IndexOf(a, k);
    if i < 0 then a + [(k, v)] else a[i := (k, v)]
  }

  /** `d.update(b)`: the pairs of `b` assigned in order. */
  function UpdateAll<V>(a: seq<(string, V)>, b: seq<(string, V)>): (r: seq<(string, V)>)
    decreases |b|
  {
    if b == [] then a else Put(UpdateAll(a, b[..|b| - 1]), b[|b| - 1].0, b[|b| - 1].1)
  }

  /** The first position holding `k` is where `IndexOf` points. */
  lemma IndexOfAt<V>(a: seq<(string, V)>, k: string, i: int)
    requires 0 <= i < |a| && a[i].0 == k
    requires forall j :: 0 <= j < i ==> a[j].0 != k
    ensures IndexOf(a, k) == i
  {
    assert Keys(a)[i] == k;
  }

  lemma IndexOfNone<V>(a: seq<(string, V)>, k: string)
    requires forall j :: 0 <= j < |a| ==> a[j].0 != k
    ensures IndexOf(a, k) == -1
  {
  }

  /** Assignment has dict semantics: the key now maps to `v`, every other key is untouched,
      and keys stay distinct. */
  lemma PutSemantics<V>(a: seq<(string, V)>, k: string, v: V)
    requires UniqueKeys(a)
    ensures UniqueKeys(Put(a, k, v))
    ensures Get(Put(a, k, v), k) == Some(v)
    ensures forall k' :: k' != k ==> Get(Put(a, k, v), k') == Get(a, k')
    ensures forall x :: x in Keys(Put(a, k, v)) <==> x in Keys(a) || x == k
  {
    PutUnique(a, k, v);
    PutGetSame(a, k, v);
    forall k' | k' != k ensures Get(Put(a, k, v), k') == Get(a, k') {
      PutGetOther(a, k, v, k');
    }
    PutKeys(a, k, v);
  }

  lemma PutUnique<V>(a: seq<(string, V)>, k: string, v: V)
    requires UniqueKeys(a)
    ensures UniqueKeys(Put(a, k, v))
  {
    assert forall j :: 0 <= j < |a| ==> a[j].0 == Keys(a)[j];
  }

  lemma PutGetSame<V>(a: seq<(string, V)>, k: string, v: V)
    ensures Get(Put(a, k, v), k) == Some(v)
  {
    var i := IndexOf(a, k);
    if i < 0 {
      assert forall j :: 0 <= j < |a| ==> a[j].0 == Keys(a)[j];
      IndexOfAt(Put(a, k, v), k, |a|);
    } else {
      IndexOfAt(Put(a, k, v), k, i);
    }
  }

  lemma PutGetOther<V>(a: seq<(string, V)>, k: string, v: V, k': string)
    requires k' != k
    ensures Get(Put(a, k, v), k') == Get(a, k')
  {
    var ia := IndexOf(a, k');
    if ia >= 0 {
      IndexOfAt(Put(a, k, v), k', ia);
    } else {
      assert forall j :: 0 <= j < |a| ==> a[j].0 == Keys(a)[j];
      IndexOfNone(Put(a, k, v), k');
    }
  }

  lemma PutKeys<V>(a: seq<(string, V)>, k: string, v: V)
    ensures forall x :: x in Keys(Put(a, k, v)) <==> x in Keys(a) || x == k
  {
    var r := Put(a, k, v);
    if IndexOf(a, k) < 0 {
      KeysSnoc(a, (k, v));
    } else {
      assert Keys(a)[IndexOf(a, k)] == k;
    }
  }

  /** After `a.update(b)` a key of `b` maps to its value in `b`, and any other key keeps its value in `a`. */
  lemma {:induction false} UpdateAllGet<V>(a: seq<(string, V)>, b: seq<(string, V)>, k: string)
    requires UniqueKeys(a) && UniqueKeys(b)
    ensures UniqueKeys(UpdateAll(a, b))
    ensures Get(UpdateAll(a, b), k) == if k in Keys(b) then Get(b, k) else Get(a, k)
    decreases |b|
  {
    if b != [] {
      var init, last := b[..|b| - 1], b[|b| - 1];
      assert b == init + [last];
      UpdateAllGet(a, init, k);
      PutSemantics(UpdateAll(a, init), last.0, last.1);
      KeysSnoc(init, last);
      GetSnoc(init, last, k);
    }
  }

  /** The keys after `a.update(b)` are those of `a` and those of `b`. */
  lemma {:induction false} UpdateAllKeys<V>(a: seq<(string, V)>, b: seq<(string, V)>, x: string)
    requires UniqueKeys(a)
    ensures x in Keys(UpdateAll(a, b)) <==> x in Keys(a) || x in Keys(b)
    decreases |b|
  {
    if b != [] {
      var init, last := b[..|b| - 1], b[|b| - 1];
      assert b == init + [last];
      UpdateAllKeys(a, init, x);
      UniqueAfterUpdate(a, init);
      PutSemantics(UpdateAll(a, init), last.0, last.1);
      KeysSnoc(init, last);
    }
  }

  lemma {:induction false} UniqueAfterUpdate<V>(a: seq<(string, V)>, b: seq<(string, V)>)
    requires UniqueKeys(a)
    ensures UniqueKeys(UpdateAll(a, b))
    decreases |b|
  {
    if b != [] {
      UniqueAfterUpdate(a, b[..|b| - 1]);
      PutSemantics(UpdateAll(a, b[..|b| - 1]), b[|b| - 1].0, b[|b| - 1].1);
    }
  }

  lemma KeysSnoc<V>(a: seq<(string, V)>, p: (string, V))
    ensures Keys(a + [p]) == Keys(a) + [p.0]
  {
    var l, r := Keys(a + [p]), Keys(a) + [p.0];
    assert |l| == |r|;
    forall i | 0 <= i < |l| ensures l[i] == r[i] { }
  }

  lemma GetSnoc<V>(a: seq<(string, V)>, p: (string, V), k: string)
    requires UniqueKeys(a + [p])
    ensures Get(a + [p], k) == if k == p.0 then Some(p.1) else Get(a, k)
  {
    var b := a + [p];
    var ia := IndexOf(a, k);
    if ia >= 0 {
      assert b[ia].0 == k && b[|a|] == p;
      IndexOfAt(b, k, ia);
    } else if k == p.0 {
      assert forall j :: 0 <= j < |a| ==> a[j].0 == Keys(a)[j];
      IndexOfAt(b, k, |a|);
    } else {
      assert forall j :: 0 <= j < |a| ==> a[j].0 == Keys(a)[j];
      IndexOfNone(b, k);
    }
  }

  /** When `b` brings only new keys, `a.update(b)` appends `b` to `a`. */
  lemma {:induction false} UpdateAllFresh<V>(a: seq<(string, V)>, b: seq<(string, V)>)
    requires UniqueKeys(b)
    requires forall k :: k in Keys(b) ==> k !in Keys(a)
    ensures UpdateAll(a, b) == a + b
    decreases |b|
  {
    if b != [] {
      var init, last := b[..|b| - 1], b[|b| - 1];
      assert b == init + [last];
      KeysSnoc(init, last);
      assert UniqueKeys(init) && forall k :: k in Keys(init) ==> k !in Keys(a);
      UpdateAllFresh(a, init);
      KeysAppend(a, init);
      assert last.0 !in Keys(init) by {
        assert forall j :: 0 <= j < |init| ==> Keys(init)[j] == b[j].0;
      }
      assert Keys(b)[|b| - 1] == last.0;
      assert last.0 !in Keys(a + init);
      assert UpdateAll(a, b) == Put(a + init, last.0, last.1);
      ConcatAssoc(a, init, [last]);
    }
  }

  /** The value of the last pair with key `k` in a run of assignments, if any. */
  function Latest<V>(b: seq<(string, V)>, k: string): Option<V>
    decreases |b|
  {
    if b == [] then None
    else if b[|b| - 1].0 == k then Some(b[|b| - 1].1)
    else Latest(b[..|b| - 1], k)
  }

  /** A run of assignments leaves no value for `k` exactly when it never assigns `k`. */
  lemma {:induction false} LatestNone<V>(b: seq<(string, V)>, k: string)
    ensures Latest(b, k).None? <==> k !in Keys(b)
    decreases |b|
  {
    if b != [] {
      var init, last := b[..|b| - 1], b[|b| - 1];
      assert b == init + [last];
      KeysSnoc(init, last);
      LatestNone(init, k);
    }
  }

  /** In two runs one after the other, the second run's last assignment to `k` wins. */
  lemma {:induction false} LatestAppend<V>(a: seq<(string, V)>, b: seq<(string, V)>, k: string)
    ensures Latest(a + b, k) == if Latest(b, k).Some? then Latest(b, k) else Latest(a, k)
    decreases |b|
  {
    if b == [] {
      assert a + b == a;
    } else {
      var init := b[..|b| - 1];
      assert (a + b)[..|a + b| - 1] == a + init;
      assert (a + b)[|a + b| - 1] == b[|b| - 1];
      LatestAppend(a, init, k);
    }
  }

  /** With distinct keys the last assignment to `k` is the only one. */
  lemma {:induction false} LatestUnique<V>(b: seq<(string, V)>, k: string)
    requires UniqueKeys(b)
    ensures Latest(b, k) == Get(b, k)
    decreases |b|
  {
    if b != [] {
      var init, last := b[..|b| - 1], b[|b| - 1];
      assert b == init + [last];
      LatestUnique(init, k);
      GetSnoc(init, last, k);
    }
  }

  /** After `a.update(b)`, for any `b`, a key `b` assigns has the value `b` assigned it
      last, and any other key keeps its value in `a`. */
  lemma {:induction false} UpdateAllLatest<V>(a: seq<(string, V)>, b: seq<(string, V)>, k: string)
    requires UniqueKeys(a)
    ensures Get(UpdateAll(a, b), k) == if Latest(b, k).Some? then Latest(b, k) else Get(a, k)
    decreases |b|
  {
    if b != [] {
      var init, last := b[..|b| - 1], b[|b| - 1];
      UpdateAllLatest(a, init, k);
      UniqueAfterUpdate(a, init);
      PutSemantics(UpdateAll(a, init), last.0, last.1);
    }
  }

  /** One `update` step of a fold that tracks a run of assignments: if `prev` and `part`
      hold the last values of `before` and `own`, then `prev.update(part)` holds the last
      values of `before + own`. */
  lemma UpdateAllStep<V>(prev: seq<(string, V)>, part: seq<(string, V)>, before: seq<(string, V)>, own: seq<(string, V)>, x: string)
    requires UniqueKeys(prev) && UniqueKeys(part)
    requires Get(prev, x) == Latest(before, x) && Get(part, x) == Latest(own, x)
    ensures Get(UpdateAll(prev, part), x) == Latest(before + own, x)
  {
    LatestUnique(part, x);
    UpdateAllLatest(prev, part, x);
    LatestAppend(before, own, x);
  }

  /** Distinct keys in `a + b` are distinct in each part, and the parts share no key. */
  lemma UniqueSplit<V>(a: seq<(string, V)>, b: seq<(string, V)>)
    requires UniqueKeys(a + b)
    ensures UniqueKeys(a) && UniqueKeys(b)
    ensures forall k :: k in Keys(b) ==> k !in Keys(a)
  {
    assert forall i :: 0 <= i < |a| ==> (a + b)[i] == a[i];
    assert forall j :: 0 <= j < |b| ==> (a + b)[|a| + j] == b[j];
    forall k | k in Keys(b) ensures k !in Keys(a) {
      var j :| 0 <= j < |b| && Keys(b)[j] == k;
      assert forall i :: 0 <= i < |a| ==> (a + b)[i].0 != (a + b)[|a| + j].0;
    }
  }

  lemma ConcatAssoc<T>(x: seq<T>, y: seq<T>, z: seq<T>)
    ensures (x + y) + z == x + (y + z)
  {
  }

  lemma KeysAppend<V>(a: seq<(string, V)>, b: seq<(string, V)>)
    ensures Keys(a + b) == Keys(a) + Keys(b)
  {
    var l, r := Keys(a + b), Keys(a) + Keys(b);
    assert |l| == |r|;
    forall i | 0 <= i < |l| ensures l[i] == r[i] { }
  }
}
