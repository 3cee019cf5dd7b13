/**
 * The flattener (core.py:35-54): a normalised value becomes one flat record whose keys
 * are paths, `parent.key` for dict nesting and `key[i]` for list members. Records are
 * association lists, so a later write to an existing path overwrites it in place.
 */
module Flatten {
  import opened Wrappers
  import opened Assoc
  import opened Text
  import opened XmlTree
  import opened Normalize

  predicate IsScalar(v: Value) {
    v.Null? || v.Str?
  }

  ghost predicate AllScalar(r: seq<(string, Value)>) {
    forall i :: 0 <= i < |r| ==> IsScalar(r[i].1)
  }

  /** Every key starts with `p`. */
  ghost predicate KeysExtend(r: seq<(string, Value)>, p: string) {
    forall i :: 0 <= i < |r| ==> p <= r[i].0
  }

  /** `f"{parent_key}.{k}" if parent_key else k` */
  function ChildKey(parent: string, k: string): (nk: string)
    ensures parent <= nk
  {
    if parent != "" then parent + "." + k else k
  }

  /** `f"{key}[{i}]"`; at top level the key is empty and this is `f"[{i}]"`. */
  function IndexKey(key: string, i: nat): (ik: string)
    ensures key <= ik
  {
    key + "[" + NatToString(i) + "]"
  }

  /** `flatten_dict_all(obj, parent_key)`. Every value is a scalar, no key appears twice,
      and every key extends `parent`. */
  function Flatten(v: Value, parent: string): (r: seq<(string, Value)>)
    ensures UniqueKeys(r) && AllScalar(r) && KeysExtend(r, parent)
    decreases v, 2, 0
  {
    match v
    case Dict(es) => FlattenEntries(v, parent, |es|)
    case List(items) => FlattenItems(v, parent, |items|)
    case _ => if parent != "" then [(parent, v)] else []
  }

  /** `flat` after the loop over the first `n` entries of dict `d`. */
  function FlattenEntries(d: Value, parent: string, n: nat): (r: seq<(string, Value)>)
    requires d.Dict? && n <= |d.entries|
    ensures UniqueKeys(r) && AllScalar(r) && KeysExtend(r, parent)
    decreases d, 1, n
  {
    if n == 0 then []
    else
      var prev := FlattenEntries(d, parent, n - 1);
      var part := EntryPart(d, parent, n - 1);
      UpdateAllInvariants(prev, part, parent);
      UpdateAll(prev, part)
  }

  /** What entry `i` of dict `d` writes into `flat`: a nested dict or list is flattened
      under `nk`, a scalar is stored at `nk` itself. */
  function EntryPart(d: Value, parent: string, i: nat): (r: seq<(string, Value)>)
    requires d.Dict? && i < |d.entries|
    ensures UniqueKeys(r) && AllScalar(r) && KeysExtend(r, ChildKey(parent, d.entries[i].0))
    decreases d, 0, 0
  {
    var k := d.entries[i].0;
    var v := d.entries[i].1;
    var nk := ChildKey(parent, k);
    if v.Dict? then Flatten(v, nk)
    else if v.List? then FlattenItems(v, nk, |v.items|)
    else [(nk, v)]
  }

  /** `flat` after the loop over the first `n` members of list `l`, each flattened under `key[i]`. */
  function FlattenItems(l: Value, key: string, n: nat): (r: seq<(string, Value)>)
    requires l.List? && n <= |l.items|
    ensures UniqueKeys(r) && AllScalar(r) && KeysExtend(r, key)
    decreases l, 1, n
  {
    if n == 0 then []
    else
      var prev := FlattenItems(l, key, n - 1);
      var part := Flatten(l.items[n - 1], IndexKey(key, n - 1));
      UpdateAllInvariants(prev, part, key);
      UpdateAll(prev, part)
  }

  /** `flat.update(part)` keeps the three record invariants. */
  lemma {:induction false} UpdateAllInvariants(a: seq<(string, Value)>, b: seq<(string, Value)>, p: string)
    requires UniqueKeys(a) && AllScalar(a) && KeysExtend(a, p)
    requires AllScalar(b) && KeysExtend(b, p)
    ensures UniqueKeys(UpdateAll(a, b)) && AllScalar(UpdateAll(a, b)) && KeysExtend(UpdateAll(a, b), p)
    decreases |b|
  {
    if b != [] {
      var init, last := b[..|b| - 1], b[|b| - 1];
      UpdateAllInvariants(a, init, p);
      var u := UpdateAll(a, init);
      PutUnique(u, last.0, last.1);
      var i := IndexOf(u, last.0);
      if i >= 0 {
        assert Put(u, last.0, last.1) == u[i := (last.0, last.1)];
      }
    }
  }

  // ----- what the record holds -----

  /** The scalar leaves of `v` under `parent`, each with its path, in document order:
      a dict entry `k` extends the path to `parent.k` (a scalar entry is always a leaf),
      list member `i` to `key[i]`, and a bare scalar is a leaf only below the top level.
      Two leaves can share a path. */
  function Leaves(v: Value, parent: string): seq<(string, Value)>
    decreases v, 2, 0
  {
    match v
    case Dict(es) => EntryLeaves(v, parent, |es|)
    case List(items) => ItemLeaves(v, parent, |items|)
    case _ => if parent != "" then [(parent, v)] else []
  }

  /** The leaves of the first `n` entries of dict `d`. */
  function EntryLeaves(d: Value, parent: string, n: nat): seq<(string, Value)>
    requires d.Dict? && n <= |d.entries|
    decreases d, 1, n
  {
    if n == 0 then [] else EntryLeaves(d, parent, n - 1) + LeavesOfEntry(d, parent, n - 1)
  }

  /** The leaves of entry `i` of dict `d`. */
  function LeavesOfEntry(d: Value, parent: string, i: nat): seq<(string, Value)>
    requires d.Dict? && i < |d.entries|
    decreases d, 0, 0
  {
    var v := d.entries[i].1;
    var nk := ChildKey(parent, d.entries[i].0);
    if v.Dict? then Leaves(v, nk)
    else if v.List? then ItemLeaves(v, nk, |v.items|)
    else [(nk, v)]
  }

  /** The leaves of the first `n` members of list `l` under `key`. */
  function ItemLeaves(l: Value, key: string, n: nat): seq<(string, Value)>
    requires l.List? && n <= |l.items|
    decreases l, 1, n
  {
    if n == 0 then [] else ItemLeaves(l, key, n - 1) + Leaves(l.items[n - 1], IndexKey(key, n - 1))
  }

  /**
   * The flat record holds exactly the paths of the leaves, each with the value of the
   * last leaf at that path: `flat[nk] = v` and `flat.update(...)` keep the last write.
   */
  lemma FlattenSpec(v: Value, parent: string, x: string)
    ensures x in Keys(Flatten(v, parent)) <==> x in Keys(Leaves(v, parent))
    ensures Get(Flatten(v, parent), x) == Latest(Leaves(v, parent), x)
  {
    FlattenLatest(v, parent, x);
    LatestNone(Leaves(v, parent), x);
  }

  lemma {:induction false} FlattenLatest(v: Value, parent: string, x: string)
    ensures Get(Flatten(v, parent), x) == Latest(Leaves(v, parent), x)
    decreases v, 2, 0
  {
    match v
    case Dict(es) => EntriesLatest(v, parent, x);
    case List(items) => ItemsLatest(v, parent, x);
    case _ =>
  }

  lemma {:induction false} EntriesLatest(d: Value, parent: string, x: string)
    requires d.Dict?
    ensures EntriesAgree(d, parent, |d.entries|, x)
    decreases d, 1
  {
    for m := 0 to |d.entries|
      invariant EntriesAgree(d, parent, m, x)
    {
      EntriesNext(d, parent, m, x);
    }
  }

  /** One more entry keeps the flat record and the leaves in agreement. */
  lemma {:induction false} EntriesNext(d: Value, parent: string, m: nat, x: string)
    requires d.Dict? && m < |d.entries|
    requires EntriesAgree(d, parent, m, x)
    ensures EntriesAgree(d, parent, m + 1, x)
    decreases d, 0, 1
  {
    EntryLatest(d, parent, m, x);
    EntriesStep(d, parent, m, x);
  }

  predicate EntryAgree(d: Value, parent: string, i: nat, x: string)
    requires d.Dict? && i < |d.entries|
  {
    Get(EntryPart(d, parent, i), x) == Latest(LeavesOfEntry(d, parent, i), x)
  }

  predicate EntriesAgree(d: Value, parent: string, n: nat, x: string)
    requires d.Dict? && n <= |d.entries|
  {
    Get(FlattenEntries(d, parent, n), x) == Latest(EntryLeaves(d, parent, n), x)
  }

  lemma EntriesStep(d: Value, parent: string, m: nat, x: string)
    requires d.Dict? && m < |d.entries|
    requires EntriesAgree(d, parent, m, x)
    requires EntryAgree(d, parent, m, x)
    ensures EntriesAgree(d, parent, m + 1, x)
  {
    EntriesUnfold(d, parent, m);
    UpdateAllStep(FlattenEntries(d, parent, m), EntryPart(d, parent, m),
                  EntryLeaves(d, parent, m), LeavesOfEntry(d, parent, m), x);
  }

  lemma EntriesUnfold(d: Value, parent: string, m: nat)
    requires d.Dict? && m < |d.entries|
    ensures FlattenEntries(d, parent, m + 1) == UpdateAll(FlattenEntries(d, parent, m), EntryPart(d, parent, m))
    ensures EntryLeaves(d, parent, m + 1) == EntryLeaves(d, parent, m) + LeavesOfEntry(d, parent, m)
  {
  }

  lemma {:induction false} EntryLatest(d: Value, parent: string, i: nat, x: string)
    requires d.Dict? && i < |d.entries|
    ensures EntryAgree(d, parent, i, x)
    decreases d, 0, 0
  {
    var v := d.entries[i].1;
    var nk := ChildKey(parent, d.entries[i].0);
    assert v < d;
    if v.Dict? {
      FlattenLatest(v, nk, x);
    } else if v.List? {
      ItemsLatest(v, nk, x);
    }
  }

  lemma {:induction false} ItemsLatest(l: Value, key: string, x: string)
    requires l.List?
    ensures ItemsAgree(l, key, |l.items|, x)
    decreases l, 1
  {
    for m := 0 to |l.items|
      invariant ItemsAgree(l, key, m, x)
    {
      ItemsNext(l, key, m, x);
    }
  }

  predicate ItemsAgree(l: Value, key: string, n: nat, x: string)
    requires l.List? && n <= |l.items|
  {
    Get(FlattenItems(l, key, n), x) == Latest(ItemLeaves(l, key, n), x)
  }

  /** One more member keeps the flat record and the leaves in agreement. */
  lemma {:induction false} ItemsNext(l: Value, key: string, m: nat, x: string)
    requires l.List? && m < |l.items|
    requires ItemsAgree(l, key, m, x)
    ensures ItemsAgree(l, key, m + 1, x)
    decreases l, 0
  {
    var item, ik := l.items[m], IndexKey(key, m);
    FlattenLatest(item, ik, x);
    ItemsUnfold(l, key, m);
    UpdateAllStep(FlattenItems(l, key, m), Flatten(item, ik), ItemLeaves(l, key, m), Leaves(item, ik), x);
  }

  lemma ItemsUnfold(l: Value, key: string, m: nat)
    requires l.List? && m < |l.items|
    ensures FlattenItems(l, key, m + 1) == UpdateAll(FlattenItems(l, key, m), Flatten(l.items[m], IndexKey(key, m)))
    ensures ItemLeaves(l, key, m + 1) == ItemLeaves(l, key, m) + Leaves(l.items[m], IndexKey(key, m))
  {
  }

  // ----- shape of the keys -----

  /** Each key written for list `l` under `key` starts with `key[i]` for a member index `i`. */
  lemma ItemKeys(l: Value, key: string, n: nat)
    requires l.List? && n <= |l.items|
    ensures forall x :: x in Keys(FlattenItems(l, key, n)) ==> exists i :: 0 <= i < n && IndexKey(key, i) <= x
  {
    forall x | x in Keys(FlattenItems(l, key, n))
      ensures exists i :: 0 <= i < n && IndexKey(key, i) <= x
    {
      var i := ItemOf(l, key, n, x);
    }
  }

  /** The member whose index path a key of the flattened list extends. */
  lemma {:induction false} ItemOf(l: Value, key: string, n: nat, x: string) returns (i: nat)
    requires l.List? && n <= |l.items|
    requires x in Keys(FlattenItems(l, key, n))
    ensures i < n && IndexKey(key, i) <= x
    decreases n
  {
    var m: nat := n - 1;
    var b := ItemStepKeys(l, key, m, x);
    if b {
      i := m;
    } else {
      i := ItemOf(l, key, m, x);
    }
  }

  /** A key after member `m` was either there before or was written by member `m`. */
  lemma ItemStepKeys(l: Value, key: string, m: nat, x: string) returns (own: bool)
    requires l.List? && m < |l.items|
    requires x in Keys(FlattenItems(l, key, m + 1))
    ensures own ==> IndexKey(key, m) <= x
    ensures !own ==> x in Keys(FlattenItems(l, key, m))
  {
    var prev := FlattenItems(l, key, m);
    var part := Flatten(l.items[m], IndexKey(key, m));
    ItemsUnfold(l, key, m);
    UpdateAllKeys(prev, part, x);
    own := x in Keys(part);
    if own {
      var j :| 0 <= j < |part| && Keys(part)[j] == x;
      assert part[j].0 == x;
    }
  }

  /** Each key written for dict `d` under `parent` starts with `parent.k` (or `k` at top
      level) for one of its entry keys `k`. */
  lemma EntryKeys(d: Value, parent: string, n: nat)
    requires d.Dict? && n <= |d.entries|
    ensures forall x :: x in Keys(FlattenEntries(d, parent, n)) ==>
      exists i :: 0 <= i < n && ChildKey(parent, d.entries[i].0) <= x
  {
    forall x | x in Keys(FlattenEntries(d, parent, n))
      ensures exists i :: 0 <= i < n && ChildKey(parent, d.entries[i].0) <= x
    {
      var i := EntryOf(d, parent, n, x);
    }
  }

  /** The entry whose path a key of the flattened dict extends. */
  lemma {:induction false} EntryOf(d: Value, parent: string, n: nat, x: string) returns (i: nat)
    requires d.Dict? && n <= |d.entries|
    requires x in Keys(FlattenEntries(d, parent, n))
    ensures i < n && ChildKey(parent, d.entries[i].0) <= x
    decreases n
  {
    var m: nat := n - 1;
    var b := EntryStepKeys(d, parent, m, x);
    if b {
      i := m;
    } else {
      i := EntryOf(d, parent, m, x);
    }
  }

  /** A key after entry `m` was either there before or was written by entry `m`. */
  lemma EntryStepKeys(d: Value, parent: string, m: nat, x: string) returns (own: bool)
    requires d.Dict? && m < |d.entries|
    requires x in Keys(FlattenEntries(d, parent, m + 1))
    ensures own ==> ChildKey(parent, d.entries[m].0) <= x
    ensures !own ==> x in Keys(FlattenEntries(d, parent, m))
  {
    var prev := FlattenEntries(d, parent, m);
    var part := EntryPart(d, parent, m);
    EntriesUnfold(d, parent, m);
    UpdateAllKeys(prev, part, x);
    own := x in Keys(part);
    if own {
      var j :| 0 <= j < |part| && Keys(part)[j] == x;
      assert part[j].0 == x;
    }
  }

  /** A bare scalar at top level contributes nothing, and neither does an empty dict. */
  lemma NothingToFlatten(p: string)
    ensures Flatten(Null, "") == [] && Flatten(Str(p), "") == []
    ensures Flatten(Dict([]), p) == [] && Flatten(List([]), p) == []
  {
  }

  /** A top-level list writes keys that start with `[i]`. */
  lemma TopLevelListKeys(items: seq<Value>, x: string)
    requires x in Keys(Flatten(List(items), ""))
    ensures exists i :: 0 <= i < |items| && "[" + NatToString(i) + "]" <= x
  {
    ItemKeys(List(items), "", |items|);
    var i :| 0 <= i < |items| && IndexKey("", i) <= x;
    assert IndexKey("", i) == "[" + NatToString(i) + "]";
  }

  // ----- examples -----

  /** When entry `n` writes only new keys, it is appended after what the earlier entries wrote. */
  lemma EntriesStepFresh(d: Value, p: string, n: nat)
    requires d.Dict? && n < |d.entries|
    requires forall k :: k in Keys(EntryPart(d, p, n)) ==> k !in Keys(FlattenEntries(d, p, n))
    ensures FlattenEntries(d, p, n + 1) == FlattenEntries(d, p, n) + EntryPart(d, p, n)
  {
    UpdateAllFresh(FlattenEntries(d, p, n), EntryPart(d, p, n));
  }

  /** When member `n` writes only new keys, it is appended after what the earlier members wrote. */
  lemma ItemsStepFresh(l: Value, key: string, n: nat)
    requires l.List? && n < |l.items|
    requires forall k :: k in Keys(Flatten(l.items[n], IndexKey(key, n))) ==> k !in Keys(FlattenItems(l, key, n))
    ensures FlattenItems(l, key, n + 1) == FlattenItems(l, key, n) + Flatten(l.items[n], IndexKey(key, n))
  {
    UpdateAllFresh(FlattenItems(l, key, n), Flatten(l.items[n], IndexKey(key, n)));
  }

  /** A scalar entry is stored at its own path. */
  lemma ScalarPart(d: Value, p: string, i: nat)
    requires d.Dict? && i < |d.entries| && IsScalar(d.entries[i].1)
    ensures EntryPart(d, p, i) == [(ChildKey(p, d.entries[i].0), d.entries[i].1)]
  {
  }

  /** The flattened form of `{k: s}` under `key`. */
  lemma SingleEntry(key: string, k: string, s: string)
    ensures Flatten(Dict([(k, Str(s))]), key) == [(ChildKey(key, k), Str(s))]
  {
    var d := Dict([(k, Str(s))]);
    ScalarPart(d, key, 0);
    EntriesStepFresh(d, key, 0);
  }

  /** `{a: s, b: {c: t}}` flattens to `{a: s, "b.c": t}` when those two paths differ. */
  lemma NestedShape(a: string, s: string, b: string, c: string, t: string)
    requires b != "" && a != b + "." + c
    ensures Flatten(Dict([(a, Str(s)), (b, Dict([(c, Str(t))]))]), "") == [(a, Str(s)), (b + "." + c, Str(t))]
  {
    var top := Dict([(a, Str(s)), (b, Dict([(c, Str(t))]))]);
    assert FlattenEntries(top, "", 1) == [(a, Str(s))] by {
      ScalarPart(top, "", 0);
      EntriesStepFresh(top, "", 0);
    }
    assert EntryPart(top, "", 1) == [(b + "." + c, Str(t))] by {
      SingleEntry(b, c, t);
    }
    assert FlattenEntries(top, "", 2) == [(a, Str(s))] + [(b + "." + c, Str(t))] by {
      EntriesStepFresh(top, "", 1);
    }
  }

  function Leaf(tag: string, text: string): Element {
    Element(tag, [], [], text)
  }

  /** Without attributes and with distinct child names, an element's dict is its children's
      (local name, value) pairs in document order. */
  lemma DistinctChildren(e: Element)
    requires e.attrs == [] && e.children != []
    requires forall i, j :: 0 <= i < j < |e.children| ==> LocalName(e.children[i].tag) != LocalName(e.children[j].tag)
    ensures ElementToDict(e) == Dict(ChildPairs(e))
  {
    var named := ChildPairs(e);
    BucketsDistinct(named);
    UpdateAllFresh([], named);
  }

  lemma {:induction false} BucketsDistinct(named: seq<(string, Value)>)
    requires UniqueKeys(named)
    ensures Buckets(named) == named
    decreases |named|
  {
    if named != [] {
      var init, last := named[..|named| - 1], named[|named| - 1];
      assert UniqueKeys(init);
      BucketsDistinct(init);
      assert last.0 !in Keys(init) by {
        assert forall j :: 0 <= j < |init| ==> Keys(init)[j] == init[j].0 && init[j] == named[j];
      }
      assert Get(init, last.0) == None;
      assert Buckets(named) == init + [last];
      assert init + [last] == named;
    }
  }

  /** `<row><a>1</a><b><c>2</c></b></row>` */
  function NestedRow(): Element {
    Element("row", [], [Leaf("a", "1"), Element("b", [], [Leaf("c", "2")], "")], "")
  }

  lemma NestedChildB()
    ensures ElementToDict(Element("b", [], [Leaf("c", "2")], "")) == Dict([("c", Str("2"))])
  {
    var b := Element("b", [], [Leaf("c", "2")], "");
    StripUnchanged("2");
    assert LocalName("c") == "c";
    assert ChildPairs(b) == [("c", Str("2"))];
    DistinctChildren(b);
  }

  lemma NestedRowPairs()
    ensures ChildPairs(NestedRow()) == [("a", Str("1")), ("b", Dict([("c", Str("2"))]))]
  {
    var p := ChildPairs(NestedRow());
    assert LocalName("a") == "a" && LocalName("b") == "b";
    StripUnchanged("1");
    NestedChildB();
    assert p[0] == ("a", Str("1"));
    assert p[1] == ("b", Dict([("c", Str("2"))]));
  }

  /** `<row><a>1</a><b><c>2</c></b></row>` normalises to `{"a": "1", "b": {"c": "2"}}`. */
  lemma NestedNormalised()
    ensures ElementToDict(NestedRow()) == Dict([("a", Str("1")), ("b", Dict([("c", Str("2"))]))])
  {
    NestedRowPairs();
    DistinctChildren(NestedRow());
  }

  /** `<row><a>1</a><b><c>2</c></b></row>` flattens to `{"a": "1", "b.c": "2"}`: no
      leading separator at top level, `parent.key` below it. */
  lemma NestedExample()
    ensures Flatten(ElementToDict(NestedRow()), "") == [("a", Str("1")), ("b.c", Str("2"))]
  {
    NestedNormalised();
    NestedFlattened();
  }

  lemma NestedFlattened()
    ensures Flatten(Dict([("a", Str("1")), ("b", Dict([("c", Str("2"))]))]), "") == [("a", Str("1")), ("b.c", Str("2"))]
  {
    assert "b" + "." + "c" == "b.c";
    NestedShape("a", "1", "b", "c", "2");
  }

  /** Every member of `l` is a dict with the single scalar entry `k`. */
  ghost predicate OneEntryDicts(l: Value, k: string) {
    l.List? && forall i :: 0 <= i < |l.items| ==>
      l.items[i].Dict? && |l.items[i].entries| == 1 && l.items[i].entries[0].0 == k && l.items[i].entries[0].1.Str?
  }

  /** Repeated one-field members (as repeated sibling elements produce) flatten member by
      member, in order, to `key[i].k`. */
  lemma {:induction false} OneEntryItems(l: Value, key: string, k: string, n: nat)
    requires OneEntryDicts(l, k) && n <= |l.items|
    ensures |FlattenItems(l, key, n)| == n
    ensures forall i :: 0 <= i < n ==> FlattenItems(l, key, n)[i] == (IndexKey(key, i) + "." + k, l.items[i].entries[0].1)
    decreases n
  {
    if n > 0 {
      var m := n - 1;
      OneEntryItems(l, key, k, m);
      var prev := FlattenItems(l, key, m);
      var s := l.items[m].entries[0].1.s;
      assert l.items[m] == Dict([(k, Str(s))]);
      SingleEntry(IndexKey(key, m), k, s);
      assert IndexKey(key, m) != "";
      forall i | 0 <= i < m ensures prev[i].0 != IndexKey(key, m) + "." + k {
        IndexKeysDiffer(key, i, m, k);
      }
      assert forall x :: x in Keys(prev) ==> x != IndexKey(key, m) + "." + k;
      ItemsStepFresh(l, key, m);
    }
  }

  /** Two member indices give different paths: the decimal strings differ, or one ends
      (at `]`) where the other still has a digit. */
  lemma IndexKeysDiffer(key: string, i: nat, j: nat, k: string)
    requires i != j
    ensures IndexKey(key, i) + "." + k != IndexKey(key, j) + "." + k
  {
    if |NatToString(i)| <= |NatToString(j)| {
      IndexKeysDifferOrdered(key, i, j, k);
    } else {
      IndexKeysDifferOrdered(key, j, i, k);
    }
  }

  lemma IndexKeysDifferOrdered(key: string, i: nat, j: nat, k: string)
    requires i != j && |NatToString(i)| <= |NatToString(j)|
    ensures IndexKey(key, i) + "." + k != IndexKey(key, j) + "." + k
  {
    var a, b := NatToString(i), NatToString(j);
    var s, t := IndexKey(key, i) + "." + k, IndexKey(key, j) + "." + k;
    var p := |key| + 1;
    assert s == key + "[" + a + ("]" + "." + k);
    assert t == key + "[" + b + ("]" + "." + k);
    if |a| == |b| {
      DecimalRoundTrip(i);
      DecimalRoundTrip(j);
      assert s[p..p + |a|] == a;
      assert t[p..p + |a|] == b;
    } else {
      assert s[p + |a|] == ']';
      assert t[p + |a|] == b[|a|];
    }
  }

  /** Three one-field members under `key` give `key[0].k`, `key[1].k`, `key[2].k`. */
  lemma ThreeItems(key: string, k: string, x: string, y: string, z: string)
    ensures Flatten(List([Dict([(k, Str(x))]), Dict([(k, Str(y))]), Dict([(k, Str(z))])]), key)
      == [(IndexKey(key, 0) + "." + k, Str(x)), (IndexKey(key, 1) + "." + k, Str(y)), (IndexKey(key, 2) + "." + k, Str(z))]
  {
    var l := List([Dict([(k, Str(x))]), Dict([(k, Str(y))]), Dict([(k, Str(z))])]);
    OneEntryItems(l, key, k, 3);
  }

  /** Repeated `<item>` siblings flatten to `item[0].v`, `item[1].v`, `item[2].v`, 0-based. */
  lemma ListExample()
    ensures Flatten(List([Dict([("v", Str("x"))]), Dict([("v", Str("y"))]), Dict([("v", Str("z"))])]), "item")
      == [("item[0].v", Str("x")), ("item[1].v", Str("y")), ("item[2].v", Str("z"))]
  {
    ThreeItems("item", "v", "x", "y", "z");
    assert IndexKey("item", 0) + "." + "v" == "item[0].v";
    assert IndexKey("item", 1) + "." + "v" == "item[1].v";
    assert IndexKey("item", 2) + "." + "v" == "item[2].v";
  }

  /** Paths are not injective: an entry literally named `b.c` and the nesting `b` then `c`
      write the same key, and the later write wins in the earlier key's place. */
  lemma CollisionShape(b: string, c: string, s: string, t: string)
    requires b != ""
    ensures Flatten(Dict([(b + "." + c, Str(s)), (b, Dict([(c, Str(t))]))]), "") == [(b + "." + c, Str(t))]
  {
    var d := Dict([(b + "." + c, Str(s)), (b, Dict([(c, Str(t))]))]);
    var prev := [(b + "." + c, Str(s))];
    assert FlattenEntries(d, "", 1) == prev by {
      ScalarPart(d, "", 0);
      EntriesStepFresh(d, "", 0);
    }
    assert EntryPart(d, "", 1) == [(b + "." + c, Str(t))] by {
      SingleEntry(b, c, t);
    }
    assert UpdateAll(prev, [(b + "." + c, Str(t))]) == [(b + "." + c, Str(t))] by {
      assert UpdateAll(prev, [(b + "." + c, Str(t))]) == Put(UpdateAll(prev, []), b + "." + c, Str(t));
      IndexOfAt(prev, b + "." + c, 0);
    }
    assert FlattenEntries(d, "", 2) == UpdateAll(prev, EntryPart(d, "", 1));
  }

  lemma CollisionExample()
    ensures Flatten(Dict([("a.b", Str("1")), ("a", Dict([("b", Str("2"))]))]), "") == [("a.b", Str("2"))]
  {
    assert "a" + "." + "b" == "a.b";
    CollisionShape("a", "b", "1", "2");
  }
}
