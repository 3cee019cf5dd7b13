/**
 * The element normaliser (core.py:10-33): one XML element becomes a nested value.
 * Attributes become `@name` entries, children are bucketed by local name (a repeated
 * name becomes a list in document order), and a leaf becomes its trimmed text or None.
 */
module Normalize {
  import opened Wrappers
  import opened Assoc
  import opened Text
  import opened XmlTree

  /** The closed set of shapes `element_to_dict` and its dicts can hold. */
  datatype Value = Null | Str(s: string) | Dict(entries: seq<(string, Value)>) | List(items: seq<Value>)

  /** The attribute part of `data`: `data["@" + localname(k)] = v` for each attribute in order. */
  function AttrEntries(attrs: seq<(string, string)>): seq<(string, Value)>
    decreases |attrs|
  {
    if attrs == [] then []
    else
      var last := attrs[|attrs| - 1];
      Put(AttrEntries(attrs[..|attrs| - 1]), AttrKey(last.0), Str(last.1))
  }

  /** One step of the bucketing loop: a first occurrence is stored as is; a second one
      turns the bucket into a list; later ones are appended to that list. */
  function AddToBucket(b: seq<(string, Value)>, k: string, v: Value): seq<(string, Value)> {
    match Get(b, k)
    case None => b + [(k, v)]
    case Some(prev) => Put(b, k, if prev.List? then List(prev.items + [v]) else List([prev, v]))
  }

  /** The `buckets` dict after the loop over the given (local name, value) pairs. */
  function Buckets(named: seq<(string, Value)>): seq<(string, Value)>
    decreases |named|
  {
    if named == [] then []
    else
      var last := named[|named| - 1];
      AddToBucket(Buckets(named[..|named| - 1]), last.0, last.1)
  }

  /** Each child's local name paired with its normalised value, in document order. */
  function ChildPairs(e: Element): (r: seq<(string, Value)>)
    ensures |r| == |e.children|
    ensures forall i :: 0 <= i < |r| ==> r[i].0 == LocalName(e.children[i].tag) && !r[i].1.List?
    decreases e, 0
  {
    seq(|e.children|, i requires 0 <= i < |e.children| =>
      (LocalName(e.children[i].tag), ElementToDict(e.children[i])))
  }

  /** `element_to_dict`: never a list; a dict exactly when the element has children. */
  function ElementToDict(e: Element): (r: Value)
    ensures !r.List?
    ensures r.Dict? <==> e.children != []
    decreases e, 1
  {
    if e.children == [] then
      var txt := Strip(e.text);
      if txt == "" then Null else Str(txt)
    else
      Dict(UpdateAll(AttrEntries(e.attrs), Buckets(ChildPairs(e))))
  }

  // ----- what the buckets hold -----

  /** The values named `k`, in order. */
  function Named(named: seq<(string, Value)>, k: string): (vs: seq<Value>)
    decreases |named|
  {
    if named == [] then []
    else
      var last := named[|named| - 1];
      Named(named[..|named| - 1], k) + (if last.0 == k then [last.1] else [])
  }

  /** The names, each kept at its first occurrence only. */
  function FirstOccurrences(names: seq<string>): seq<string>
    decreases |names|
  {
    if names == [] then []
    else
      var init := FirstOccurrences(names[..|names| - 1]);
      var last := names[|names| - 1];
      if last in names[..|names| - 1] then init else init + [last]
  }

  /** What the bucket for a name holds: the value itself for one occurrence,
      the list of all its values in order for two or more. */
  function Bucket(vs: seq<Value>): Value
    requires vs != []
  {
    if |vs| >= 2 then List(vs) else vs[0]
  }

  /**
   * The buckets are keyed by the distinct names in first-occurrence order, and the bucket
   * of a name is its single value, or a List of all its values in document order exactly
   * when the name occurs at least twice. Needs the values themselves not to be lists,
   * which `ElementToDict` guarantees.
   */
  lemma BucketsSpec(named: seq<(string, Value)>)
    requires forall i :: 0 <= i < |named| ==> !named[i].1.List?
    ensures UniqueKeys(Buckets(named))
    ensures Keys(Buckets(named)) == FirstOccurrences(Keys(named))
    ensures forall k :: k in Keys(named) ==> Named(named, k) != [] && Get(Buckets(named), k) == Some(Bucket(Named(named, k)))
  {
    BucketsKeys(named);
    FirstOccurrencesDistinct(Keys(named));
    assert forall j :: 0 <= j < |Buckets(named)| ==> Buckets(named)[j].0 == Keys(Buckets(named))[j];
    forall k | k in Keys(named)
      ensures Named(named, k) != [] && Get(Buckets(named), k) == Some(Bucket(Named(named, k)))
    {
      BucketsGet(named, k);
      NamedPresent(named, k);
    }
  }

  /** The bucket of one name `k`, whether or not it occurs. */
  lemma {:induction false} BucketsGet(named: seq<(string, Value)>, k: string)
    requires forall i :: 0 <= i < |named| ==> !named[i].1.List?
    ensures Get(Buckets(named), k) == if Named(named, k) == [] then None else Some(Bucket(Named(named, k)))
    decreases |named|
  {
    if named != [] {
      var init, last := named[..|named| - 1], named[|named| - 1];
      BucketsGet(init, k);
      NamedNotList(init, k);
      AddToBucketGet(Buckets(init), Named(init, k), last.0, last.1, k);
    }
  }

  /** One step of the bucketing loop, seen from name `k`: the bucket follows the values named `k`. */
  lemma AddToBucketGet(b: seq<(string, Value)>, prevs: seq<Value>, name: string, v: Value, k: string)
    requires !v.List? && forall x :: x in prevs ==> !x.List?
    requires Get(b, k) == if prevs == [] then None else Some(Bucket(prevs))
    ensures var now := prevs + (if name == k then [v] else []);
      Get(AddToBucket(b, name, v), k) == if now == [] then None else Some(Bucket(now))
  {
    if name == k {
      AddToBucketSame(b, prevs, k, v);
    } else {
      AddToBucketOther(b, name, v, k);
      assert prevs + [] == prevs;
    }
  }

  lemma AddToBucketSame(b: seq<(string, Value)>, prevs: seq<Value>, k: string, v: Value)
    requires !v.List? && forall x :: x in prevs ==> !x.List?
    requires Get(b, k) == if prevs == [] then None else Some(Bucket(prevs))
    ensures Get(AddToBucket(b, k, v), k) == Some(Bucket(prevs + [v]))
  {
    if prevs == [] {
      GetAppendNew(b, k, v, k);
      assert prevs + [v] == [v];
    } else {
      var nv := List(prevs + [v]);
      if |prevs| == 1 {
        assert prevs[0] in prevs;
        assert [prevs[0], v] == prevs + [v];
        assert Bucket(prevs) == prevs[0] && !prevs[0].List?;
      } else {
        assert Bucket(prevs) == List(prevs);
      }
      assert AddToBucket(b, k, v) == Put(b, k, nv);
      PutGetSame(b, k, nv);
      assert Bucket(prevs + [v]) == nv;
    }
  }

  lemma AddToBucketOther(b: seq<(string, Value)>, name: string, v: Value, k: string)
    requires name != k
    ensures Get(AddToBucket(b, name, v), k) == Get(b, k)
  {
    match Get(b, name)
    case None =>
      GetAppendNew(b, name, v, k);
    case Some(prev) =>
      PutGetOther(b, name, if prev.List? then List(prev.items + [v]) else List([prev, v]), k);
  }

  /** The bucket keys are the names in first-occurrence order. */
  lemma {:induction false} BucketsKeys(named: seq<(string, Value)>)
    ensures Keys(Buckets(named)) == FirstOccurrences(Keys(named))
    decreases |named|
  {
    if named != [] {
      var init, last := named[..|named| - 1], named[|named| - 1];
      assert named == init + [last];
      BucketsKeys(init);
      KeysSnoc(init, last);
      assert Keys(named)[..|named| - 1] == Keys(init);
      var b := Buckets(init);
      FirstOccurrencesMembers(Keys(init));
      match Get(b, last.0)
      case None =>
        KeysSnoc(b, last);
      case Some(prev) =>
    }
  }

  lemma GetAppendNew<V>(a: seq<(string, V)>, k: string, v: V, k': string)
    requires k !in Keys(a)
    ensures Get(a + [(k, v)], k') == if k' == k then Some(v) else Get(a, k')
  {
    assert forall j :: 0 <= j < |a| ==> a[j].0 == Keys(a)[j];
    if k' == k {
      IndexOfAt(a + [(k, v)], k, |a|);
    } else if IndexOf(a, k') >= 0 {
      IndexOfAt(a + [(k, v)], k', IndexOf(a, k'));
    } else {
      IndexOfNone(a + [(k, v)], k');
    }
  }

  lemma {:induction false} NamedPresent(named: seq<(string, Value)>, k: string)
    requires k in Keys(named)
    ensures Named(named, k) != []
    decreases |named|
  {
    var init, last := named[..|named| - 1], named[|named| - 1];
    assert named == init + [last];
    KeysSnoc(init, last);
    if last.0 != k {
      NamedPresent(init, k);
    }
  }

  lemma {:induction false} FirstOccurrencesDistinct(names: seq<string>)
    ensures forall i, j :: 0 <= i < j < |FirstOccurrences(names)| ==> FirstOccurrences(names)[i] != FirstOccurrences(names)[j]
    decreases |names|
  {
    if names != [] {
      FirstOccurrencesDistinct(names[..|names| - 1]);
      FirstOccurrencesMembers(names[..|names| - 1]);
    }
  }

  lemma {:induction false} NamedAbsent(named: seq<(string, Value)>, k: string)
    requires k !in Keys(named)
    ensures Named(named, k) == []
    decreases |named|
  {
    if named != [] {
      var init := named[..|named| - 1];
      KeysSnoc(init, named[|named| - 1]);
      assert named == init + [named[|named| - 1]];
      NamedAbsent(init, k);
    }
  }

  lemma {:induction false} NamedNotList(named: seq<(string, Value)>, k: string)
    requires forall i :: 0 <= i < |named| ==> !named[i].1.List?
    ensures forall v :: v in Named(named, k) ==> !v.List?
    decreases |named|
  {
    if named != [] {
      NamedNotList(named[..|named| - 1], k);
    }
  }

  lemma {:induction false} FirstOccurrencesMembers(names: seq<string>)
    ensures forall x :: x in FirstOccurrences(names) <==> x in names
    decreases |names|
  {
    if names != [] {
      FirstOccurrencesMembers(names[..|names| - 1]);
      assert names == names[..|names| - 1] + [names[|names| - 1]];
    }
  }

  // ----- what element_to_dict returns -----

  /** A childless element becomes its trimmed text, or None when that is empty;
      its attributes play no part. */
  lemma LeafValue(e: Element)
    requires e.children == []
    ensures ElementToDict(e) == ElementToDict(e.(attrs := []))
    ensures ElementToDict(e) == Null <==> forall i :: 0 <= i < |e.text| ==> IsSpace(e.text[i])
    ensures ElementToDict(e) != Null ==> ElementToDict(e) == Str(Strip(e.text)) && Strip(e.text) != ""
  {
    StripEnds(e.text);
  }

  predicate StartsWithAt(k: string) {
    |k| > 0 && k[0] == '@'
  }

  /** The key an attribute gets: `f"@{localname(k)}"`. */
  function AttrKey(name: string): (k: string)
    ensures StartsWithAt(k)
  {
    "@" + LocalName(name)
  }

  /** A later attribute with the same local name overwrites an earlier one: keys stay distinct. */
  lemma {:induction false} AttrEntriesUnique(attrs: seq<(string, string)>)
    ensures UniqueKeys(AttrEntries(attrs))
    decreases |attrs|
  {
    if attrs != [] {
      var init, last := attrs[..|attrs| - 1], attrs[|attrs| - 1];
      AttrEntriesUnique(init);
      PutUnique(AttrEntries(init), AttrKey(last.0), Str(last.1));
    }
  }

  /** An attribute no later attribute overrides is found under its key with its own text:
      of several attributes with one local name, the last one wins. */
  lemma {:induction false} AttrEntriesLast(attrs: seq<(string, string)>, i: nat)
    requires i < |attrs|
    requires forall j :: i < j < |attrs| ==> AttrKey(attrs[j].0) != AttrKey(attrs[i].0)
    ensures Get(AttrEntries(attrs), AttrKey(attrs[i].0)) == Some(Str(attrs[i].1))
    decreases |attrs|
  {
    var init, last := attrs[..|attrs| - 1], attrs[|attrs| - 1];
    assert AttrEntries(attrs) == Put(AttrEntries(init), AttrKey(last.0), Str(last.1));
    if i == |attrs| - 1 {
      PutGetSame(AttrEntries(init), AttrKey(last.0), Str(last.1));
    } else {
      assert attrs[i] == init[i];
      PutGetOther(AttrEntries(init), AttrKey(last.0), Str(last.1), AttrKey(attrs[i].0));
      AttrEntriesLast(init, i);
    }
  }

  /** A key that no attribute gives is absent. */
  lemma {:induction false} AttrEntriesAbsent(attrs: seq<(string, string)>, k: string)
    requires forall i :: 0 <= i < |attrs| ==> AttrKey(attrs[i].0) != k
    ensures Get(AttrEntries(attrs), k) == None
    decreases |attrs|
  {
    if attrs != [] {
      var init, last := attrs[..|attrs| - 1], attrs[|attrs| - 1];
      assert AttrEntries(attrs) == Put(AttrEntries(init), AttrKey(last.0), Str(last.1));
      assert forall i :: 0 <= i < |init| ==> init[i] == attrs[i];
      AttrEntriesAbsent(init, k);
      PutGetOther(AttrEntries(init), AttrKey(last.0), Str(last.1), k);
    }
  }

  /** Every attribute gives the key `@` + its local name, and every key is one of those. */
  lemma {:induction false} AttrEntriesKeys(attrs: seq<(string, string)>)
    ensures forall k :: k in Keys(AttrEntries(attrs)) ==> StartsWithAt(k)
    ensures forall i :: 0 <= i < |attrs| ==> AttrKey(attrs[i].0) in Keys(AttrEntries(attrs))
    decreases |attrs|
  {
    if attrs != [] {
      var init, last := attrs[..|attrs| - 1], attrs[|attrs| - 1];
      AttrEntriesKeys(init);
      var a, k := AttrEntries(init), AttrKey(last.0);
      PutKeys(a, k, Str(last.1));
      assert AttrEntries(attrs) == Put(a, k, Str(last.1));
      forall i | 0 <= i < |attrs| ensures AttrKey(attrs[i].0) in Keys(AttrEntries(attrs)) {
        if i < |init| {
          assert attrs[i] == init[i];
          assert AttrKey(init[i].0) in Keys(a);
        }
      }
    }
  }

  /** The local names of the children, in document order. */
  function ChildNames(e: Element): (ns: seq<string>)
    ensures ns == Keys(ChildPairs(e))
  {
    seq(|e.children|, i requires 0 <= i < |e.children| => LocalName(e.children[i].tag))
  }

  /**
   * For an element with children, each child local name maps to its bucket: the child's
   * value when the name occurs once, the List of those children's values in document
   * order when it occurs two or more times. An attribute key that is no child's name
   * keeps the attribute's text.
   */
  lemma ElementDictGet(e: Element, k: string)
    requires e.children != []
    ensures ElementToDict(e).Dict?
    ensures k in ChildNames(e) ==>
      Named(ChildPairs(e), k) != [] && Get(ElementToDict(e).entries, k) == Some(Bucket(Named(ChildPairs(e), k)))
    ensures k !in ChildNames(e) ==> Get(ElementToDict(e).entries, k) == Get(AttrEntries(e.attrs), k)
  {
    var named := ChildPairs(e);
    BucketsSpec(named);
    AttrEntriesUnique(e.attrs);
    UpdateAllGet(AttrEntries(e.attrs), Buckets(named), k);
    FirstOccurrencesMembers(Keys(named));
  }

  /**
   * The keys of an element with children: its `@` attribute keys first, then the
   * children's distinct local names in first-occurrence order. (Child local names
   * never start with `@` in well-formed XML; that is what keeps the two parts apart.)
   */
  lemma ElementDictKeys(e: Element)
    requires e.children != []
    requires forall i :: 0 <= i < |e.children| ==> !StartsWithAt(LocalName(e.children[i].tag))
    ensures ElementToDict(e).Dict?
    ensures Keys(ElementToDict(e).entries) == Keys(AttrEntries(e.attrs)) + FirstOccurrences(ChildNames(e))
  {
    var named := ChildPairs(e);
    var a := AttrEntries(e.attrs);
    var b := Buckets(named);
    assert UniqueKeys(b) && Keys(b) == FirstOccurrences(ChildNames(e)) by {
      BucketsSpec(named);
    }
    assert forall k :: k in Keys(b) ==> k !in Keys(a) by {
      FirstOccurrencesMembers(Keys(named));
      AttrEntriesKeys(e.attrs);
      forall k | k in Keys(b) ensures k !in Keys(a) {
        var i :| 0 <= i < |named| && named[i].0 == k;
        assert !StartsWithAt(k);
      }
    }
    UpdateAllFresh(a, b);
    assert ElementToDict(e).entries == a + b;
    KeysAppend(a, b);
  }
}
