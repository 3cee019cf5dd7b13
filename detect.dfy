/**
 * The row-pattern detector (core.py:58-85). A LIFO stack walks the tree from the root at
 * depth 0; each popped parent's children are grouped by local name, and a group of two
 * or more replaces the best so far only when it has more members, or as many under a
 * deeper parent. With no repeated sibling names anywhere, the rows are the root's
 * children, or the root itself when it has none.
 */
module Detect {
  import opened Wrappers
  import opened Assoc
  import opened XmlTree

  // ----- grouping one parent's children -----

  /** `groups[localname(ch.tag)].append(ch)` on a `defaultdict(list)`. */
  function AddToGroup(g: seq<(string, seq<Element>)>, ch: Element): seq<(string, seq<Element>)> {
    var k := LocalName(ch.tag);
    Put(g, k, Get(g, k).GetOr([]) + [ch])
  }

  /** `groups` after the grouping loop over `cs`. */
  function GroupsOf(cs: seq<Element>): seq<(string, seq<Element>)>
    decreases |cs|
  {
    if cs == [] then [] else AddToGroup(GroupsOf(cs[..|cs| - 1]), cs[|cs| - 1])
  }

  /** The elements of `cs` whose local name is `name`, in document order. */
  function WithName(cs: seq<Element>, name: string): seq<Element>
    decreases |cs|
  {
    if cs == [] then []
    else WithName(cs[..|cs| - 1], name) + (if LocalName(cs[|cs| - 1].tag) == name then [cs[|cs| - 1]] else [])
  }

  /** The group of a name holds exactly the children with that local name, in document
      order, and is absent when there are none; names are distinct. */
  lemma {:induction false} GroupsGet(cs: seq<Element>, k: string)
    ensures UniqueKeys(GroupsOf(cs))
    ensures Get(GroupsOf(cs), k) == if WithName(cs, k) == [] then None else Some(WithName(cs, k))
    decreases |cs|
  {
    if cs != [] {
      var init, last := cs[..|cs| - 1], cs[|cs| - 1];
      GroupsGet(init, k);
      AddToGroupGet(GroupsOf(init), WithName(init, k), last, k);
    }
  }

  /** One step of the grouping loop, seen from name `k`. */
  lemma AddToGroupGet(g: seq<(string, seq<Element>)>, prev: seq<Element>, ch: Element, k: string)
    requires UniqueKeys(g)
    requires Get(g, k) == if prev == [] then None else Some(prev)
    ensures UniqueKeys(AddToGroup(g, ch))
    ensures var now := prev + (if LocalName(ch.tag) == k then [ch] else []);
      Get(AddToGroup(g, ch), k) == if now == [] then None else Some(now)
  {
    var n := LocalName(ch.tag);
    var v := Get(g, n).GetOr([]) + [ch];
    PutUnique(g, n, v);
    if n == k {
      PutGetSame(g, n, v);
    } else {
      PutGetOther(g, n, v, k);
      assert prev + [] == prev;
    }
  }

  /** Each group is the non-empty run of children bearing its name. */
  lemma GroupEntry(cs: seq<Element>, i: nat)
    requires i < |GroupsOf(cs)|
    ensures GroupsOf(cs)[i].1 == WithName(cs, GroupsOf(cs)[i].0) != []
  {
    var g := GroupsOf(cs);
    GroupsGet(cs, g[i].0);
    IndexOfAt(g, g[i].0, i);
  }

  /** A name some child bears has a group. */
  lemma GroupOf(cs: seq<Element>, n: string) returns (i: nat)
    requires WithName(cs, n) != []
    ensures i < |GroupsOf(cs)| && GroupsOf(cs)[i].0 == n
  {
    GroupsGet(cs, n);
    i := IndexOf(GroupsOf(cs), n);
  }

  // ----- choosing among groups -----

  /** The accumulator `best`: member count, parent depth, name and the group itself. */
  datatype Best = Best(count: int, depth: int, name: Option<string>, elems: Option<seq<Element>>)

  /** `{"count": 0, "depth": -1, "name": None, "elems": None}` */
  const Init := Best(0, -1, None, None)

  /** The candidates a popped parent at `depth` offers, one per group, in group order. */
  function ParentCandidates(e: Element, depth: int): seq<Best> {
    var g := GroupsOf(e.children);
    seq(|g|, i requires 0 <= i < |g| => Best(|g[i].1|, depth, Some(g[i].0), Some(g[i].1)))
  }

  /** `c >= 2` and `(c > best["count"]) or (c == best["count"] and depth > best["depth"])`. */
  predicate Beats(c: Best, best: Best) {
    c.count >= 2 && (c.count > best.count || (c.count == best.count && c.depth > best.depth))
  }

  /** One candidate examined: only a strictly better one replaces `best`. */
  function Step(best: Best, c: Best): Best {
    if Beats(c, best) then c else best
  }

  /** `best` after examining `cands` in order, starting from `best`. */
  function SelectFrom(best: Best, cands: seq<Best>): Best
    decreases |cands|
  {
    if cands == [] then best else Step(SelectFrom(best, cands[..|cands| - 1]), cands[|cands| - 1])
  }

  /** Examining two runs of candidates one after the other. */
  lemma {:induction false} SelectAppend(best: Best, a: seq<Best>, b: seq<Best>)
    ensures SelectFrom(best, a + b) == SelectFrom(SelectFrom(best, a), b)
    decreases |b|
  {
    if b == [] {
      assert a + b == a;
    } else {
      assert (a + b)[..|a + b| - 1] == a + b[..|b| - 1];
      SelectAppend(best, a, b[..|b| - 1]);
    }
  }

  /**
   * The selection keeps the best candidate: nothing examined beats the result. The result
   * is either the starting value, when nothing beats that, or candidate `k`, which beats
   * the start and is strictly better than every eligible candidate before it, so a full
   * tie keeps the first one examined.
   */
  lemma {:induction false} SelectSpec(best: Best, cands: seq<Best>) returns (k: int)
    ensures -1 <= k < |cands|
    ensures k == -1 ==> SelectFrom(best, cands) == best && forall c :: c in cands ==> !Beats(c, best)
    ensures k >= 0 ==> SelectFrom(best, cands) == cands[k] && Beats(cands[k], best)
    ensures k >= 0 ==> forall j :: 0 <= j < k && cands[j].count >= 2 ==> Beats(cands[k], cands[j])
    ensures forall c :: c in cands ==> !Beats(c, SelectFrom(best, cands))
    decreases |cands|
  {
    if cands == [] {
      k := -1;
    } else {
      var n := |cands| - 1;
      var init, last := cands[..n], cands[n];
      assert cands == init + [last];
      var k0 := SelectSpec(best, init);
      var r0 := SelectFrom(best, init);
      if Beats(last, r0) {
        k := n;
        forall j | 0 <= j < k && cands[j].count >= 2 ensures Beats(cands[k], cands[j]) {
          assert cands[j] in init;
        }
      } else {
        k := k0;
      }
    }
  }

  // ----- the order of the walk -----

  /** The (element, depth) pairs in the order the stack pops them when it starts from
      `(e, d)`: `e` itself, then the subtrees of its children, last child first. */
  function Visit(e: Element, d: int): (r: seq<(Element, int)>)
    ensures r != [] && r[0] == (e, d)
    decreases e, 1, 0
  {
    [(e, d)] + VisitKids(e, |e.children|, d + 1)
  }

  /** The subtrees of the first `n` children of `p` at depth `d`, last child first. */
  function VisitKids(p: Element, n: nat, d: int): seq<(Element, int)>
    requires n <= |p.children|
    decreases p, 0, n
  {
    if n == 0 then [] else Visit(p.children[n - 1], d) + VisitKids(p, n - 1, d)
  }

  /** What the stack still holds, in the order it will be popped: the top entry's subtree first. */
  function Pending(stack: seq<(Element, int)>): seq<(Element, int)>
    decreases |stack|
  {
    if stack == [] then []
    else Visit(stack[|stack| - 1].0, stack[|stack| - 1].1) + Pending(stack[..|stack| - 1])
  }

  /** The candidates the popped parents offer, in popping order. */
  function Candidates(visits: seq<(Element, int)>): seq<Best>
    decreases |visits|
  {
    if visits == [] then []
    else Candidates(visits[..|visits| - 1]) + ParentCandidates(visits[|visits| - 1].0, visits[|visits| - 1].1)
  }

  /** With nothing repeated: `list(root)` if non-empty, else `[root]`. */
  function Fallback(root: Element): seq<Element> {
    if root.children != [] then root.children else [root]
  }

  /** What `detect_repeating_rows(root)` returns. */
  function RowsOf(root: Element): seq<Element> {
    var best := SelectFrom(Init, Candidates(Visit(root, 0)));
    if best.elems.Some? then best.elems.value else Fallback(root)
  }

  /** `detect_repeating_rows`: the stack walk, the grouping of each parent's children and
      the strict-improvement update of `best`, as the source performs them. */
  method DetectRepeatingRows(root: Element) returns (rows: seq<Element>)
    ensures rows == RowsOf(root)
  {
    var best := Init;
    var stack := [(root, 0)];
    ghost var processed: seq<(Element, int)> := [];
    assert Pending(stack) == Visit(root, 0);
    while stack != []
      invariant processed + Pending(stack) == Visit(root, 0)
      invariant best == SelectFrom(Init, Candidates(processed))
      decreases |Visit(root, 0)| - |processed|
    {
      var parent, depth := stack[|stack| - 1].0, stack[|stack| - 1].1;
      var rest := stack[..|stack| - 1];
      assert Pending(stack) == Visit(parent, depth) + Pending(rest);
      stack := rest;
      if parent.children != [] {
        best := ExamineGroups(best, parent, depth);
        stack := PushChildren(stack, parent, depth);
      } else {
        assert Pending(stack) == [] + Pending(rest);
      }
      PopStep(processed, rest, parent, depth, stack, Visit(root, 0));
      SelectStep(processed, parent, depth);
      processed := processed + [(parent, depth)];
    }
    assert processed + Pending(stack) == processed;
    if best.elems.Some? {
      return best.elems.value;
    }
    var rc := root.children;
    if rc != [] {
      return rc;
    }
    return [root];
  }

  /** Popping `(parent, depth)` and pushing its children keeps the walk's order. */
  lemma PopStep(processed: seq<(Element, int)>, rest: seq<(Element, int)>, parent: Element, depth: int,
                stack: seq<(Element, int)>, all: seq<(Element, int)>)
    requires processed + (Visit(parent, depth) + Pending(rest)) == all
    requires Pending(stack) == VisitKids(parent, |parent.children|, depth + 1) + Pending(rest)
    ensures (processed + [(parent, depth)]) + Pending(stack) == all
  {
    var kids := VisitKids(parent, |parent.children|, depth + 1);
    assert Visit(parent, depth) == [(parent, depth)] + kids;
    Regroup(processed, (parent, depth), kids, Pending(rest));
  }

  lemma Regroup<T>(p: seq<T>, x: T, k: seq<T>, r: seq<T>)
    ensures (p + [x]) + (k + r) == p + (([x] + k) + r)
  {
  }

  /** Examining one more parent examines its groups after all earlier ones. */
  lemma SelectStep(processed: seq<(Element, int)>, parent: Element, depth: int)
    ensures SelectFrom(Init, Candidates(processed + [(parent, depth)]))
      == SelectFrom(SelectFrom(Init, Candidates(processed)), ParentCandidates(parent, depth))
  {
    assert (processed + [(parent, depth)])[..|processed|] == processed;
    SelectAppend(Init, Candidates(processed), ParentCandidates(parent, depth));
  }

  /** The grouping loop: the children of `parent` by local name, in first-seen order. */
  method GroupChildren(parent: Element) returns (groups: seq<(string, seq<Element>)>)
    ensures groups == GroupsOf(parent.children)
  {
    var children := parent.children;
    groups := [];
    for j := 0 to |children|
      invariant groups == GroupsOf(children[..j])
    {
      assert children[..j + 1][..j] == children[..j];
      groups := AddToGroup(groups, children[j]);
    }
    assert children[..|children|] == children;
  }

  /** The body of the group loop: a group of `c >= 2` elements replaces `best` when it
      is larger, or as large and deeper. */
  method Consider(best: Best, name: string, els: seq<Element>, depth: int) returns (best': Best)
    ensures best' == Step(best, Best(|els|, depth, Some(name), Some(els)))
    ensures best'.count >= best.count
  {
    best' := best;
    var c := |els|;
    if c >= 2 {
      if (c > best.count) || (c == best.count && depth > best.depth) {
        best' := Best(c, depth, Some(name), Some(els));
      }
    }
  }

  /** Groups the children of `parent` by local name and examines each group in turn. */
  method ExamineGroups(best: Best, parent: Element, depth: int) returns (best': Best)
    ensures best' == SelectFrom(best, ParentCandidates(parent, depth))
  {
    var groups := GroupChildren(parent);
    ghost var offered := ParentCandidates(parent, depth);
    best' := best;
    for g := 0 to |groups|
      invariant best' == SelectFrom(best, offered[..g])
    {
      ghost var prev := best';
      var name, els := groups[g].0, groups[g].1;
      best' := Consider(best', name, els, depth);
      assert best' == Step(prev, offered[g]) by {
        assert offered[g] == Best(|els|, depth, Some(name), Some(els));
      }
      assert SelectFrom(best, offered[..g + 1]) == Step(SelectFrom(best, offered[..g]), offered[g]) by {
        assert offered[..g + 1][..g] == offered[..g];
      }
    }
    assert offered[..|groups|] == offered;
  }

  /** Pushes the children of `parent`, first to last, one level deeper: they will be
      popped last child first. */
  method PushChildren(stack: seq<(Element, int)>, parent: Element, depth: int) returns (stack': seq<(Element, int)>)
    ensures Pending(stack') == VisitKids(parent, |parent.children|, depth + 1) + Pending(stack)
  {
    var children := parent.children;
    stack' := stack;
    for j := 0 to |children|
      invariant Pending(stack') == VisitKids(parent, j, depth + 1) + Pending(stack)
    {
      assert (stack' + [(children[j], depth + 1)])[..|stack'|] == stack';
      stack' := stack' + [(children[j], depth + 1)];
    }
  }

  // ----- every node is examined -----

  /** A visit inside the children's subtrees lies in one child's subtree. */
  lemma {:induction false} InVisitKids(p: Element, n: nat, d: int, x: (Element, int)) returns (m: nat)
    requires n <= |p.children| && x in VisitKids(p, n, d)
    ensures m < n && x in Visit(p.children[m], d)
    decreases n
  {
    if x in Visit(p.children[n - 1], d) {
      m := n - 1;
    } else {
      m := InVisitKids(p, n - 1, d, x);
    }
  }

  /** Every child's subtree is visited among the children's subtrees. */
  lemma {:induction false} KidsContain(p: Element, n: nat, d: int, m: nat)
    requires m < n <= |p.children|
    ensures (p.children[m], d) in VisitKids(p, n, d)
    decreases n
  {
    if m < n - 1 {
      KidsContain(p, n - 1, d, m);
    }
  }

  /** The walk reaches each child of every parent it reaches, one level deeper. */
  lemma {:induction false} ChildVisited(e: Element, d: int, p: Element, dp: int, i: nat)
    requires (p, dp) in Visit(e, d) && i < |p.children|
    ensures (p.children[i], dp + 1) in Visit(e, d)
    decreases e
  {
    if (p, dp) == (e, d) {
      KidsContain(e, |e.children|, d + 1, i);
    } else {
      assert (p, dp) in VisitKids(e, |e.children|, d + 1);
      var m := InVisitKids(e, |e.children|, d + 1, (p, dp));
      ChildVisited(e.children[m], d + 1, p, dp, i);
      var sub := Visit(e.children[m], d + 1);
      var x := (p.children[i], dp + 1);
      KidsSubtree(e, |e.children|, d + 1, m, x);
    }
  }

  /** A visit in one child's subtree is a visit among the children's subtrees. */
  lemma {:induction false} KidsSubtree(p: Element, n: nat, d: int, m: nat, x: (Element, int))
    requires m < n <= |p.children| && x in Visit(p.children[m], d)
    ensures x in VisitKids(p, n, d)
    decreases n
  {
    if m < n - 1 {
      KidsSubtree(p, n - 1, d, m, x);
    }
  }

  // ----- candidates come from the visited parents -----

  /** Each candidate is a group of a visited parent, offered at that parent's depth. */
  lemma {:induction false} CandidateOrigin(visits: seq<(Element, int)>, c: Best) returns (v: nat, i: nat)
    requires c in Candidates(visits)
    ensures v < |visits| && i < |GroupsOf(visits[v].0.children)|
    ensures c == ParentCandidates(visits[v].0, visits[v].1)[i]
    decreases |visits|
  {
    var init := visits[..|visits| - 1];
    var offered := ParentCandidates(visits[|visits| - 1].0, visits[|visits| - 1].1);
    if c in Candidates(init) {
      v, i := CandidateOrigin(init, c);
    } else {
      assert c in offered;
      var j :| 0 <= j < |offered| && offered[j] == c;
      v, i := |visits| - 1, j;
    }
  }

  /** Each group of a visited parent is a candidate. */
  lemma {:induction false} CandidateOf(visits: seq<(Element, int)>, v: nat, i: nat)
    requires v < |visits| && i < |GroupsOf(visits[v].0.children)|
    ensures ParentCandidates(visits[v].0, visits[v].1)[i] in Candidates(visits)
    decreases |visits|
  {
    if v < |visits| - 1 {
      var init := visits[..|visits| - 1];
      CandidateOf(init, v, i);
    }
  }

  /** What a candidate is: all `count` children of its parent that bear its name. */
  lemma CandidateShape(visits: seq<(Element, int)>, c: Best) returns (v: nat)
    requires c in Candidates(visits)
    ensures v < |visits| && c.depth == visits[v].1 && c.name.Some? && c.elems.Some?
    ensures c.elems.value == WithName(visits[v].0.children, c.name.value) != []
    ensures c.count == |c.elems.value|
  {
    var i;
    v, i := CandidateOrigin(visits, c);
    GroupEntry(visits[v].0.children, i);
  }

  /** Any repeated local name under a visited parent is offered as a candidate. */
  lemma RepeatOffered(visits: seq<(Element, int)>, p: Element, dp: int, n: string) returns (c: Best)
    requires (p, dp) in visits && WithName(p.children, n) != []
    ensures c in Candidates(visits) && c.count == |WithName(p.children, n)| && c.depth == dp
  {
    var v :| 0 <= v < |visits| && visits[v] == (p, dp);
    var i := GroupOf(p.children, n);
    GroupEntry(p.children, i);
    CandidateOf(visits, v, i);
    c := ParentCandidates(p, dp)[i];
  }

  // ----- what the detector returns -----

  /** Some parent in the tree has two children with the same local name. */
  ghost predicate HasRepeat(root: Element) {
    exists p, dp, n :: (p, dp) in Visit(root, 0) && |WithName(p.children, n)| >= 2
  }

  /** With nothing repeated anywhere, the rows are the root's children, or `[root]`. */
  lemma RowsFallback(root: Element)
    requires !HasRepeat(root)
    ensures RowsOf(root) == Fallback(root)
  {
    var visits := Visit(root, 0);
    forall c | c in Candidates(visits) ensures !Beats(c, Init) {
      var v := CandidateShape(visits, c);
      assert visits[v] in visits;
    }
    SelectNone(Init, Candidates(visits));
  }

  /** When no candidate beats the start, the start is kept. */
  lemma {:induction false} SelectNone(best: Best, cands: seq<Best>)
    requires forall c :: c in cands ==> !Beats(c, best)
    ensures SelectFrom(best, cands) == best
    decreases |cands|
  {
    if cands != [] {
      assert cands[|cands| - 1] in cands;
      assert forall c :: c in cands[..|cands| - 1] ==> c in cands;
      SelectNone(best, cands[..|cands| - 1]);
    }
  }

  /**
   * With some repeated sibling name, the rows are all children named `n` of a visited
   * parent `p` at depth `d`, at least two of them, in document order; no sibling group
   * anywhere in the tree is larger, and none of the same size sits under a deeper parent.
   */
  lemma RowsBest(root: Element) returns (p: Element, d: int, n: string)
    requires HasRepeat(root)
    ensures (p, d) in Visit(root, 0)
    ensures RowsOf(root) == WithName(p.children, n) && |RowsOf(root)| >= 2
    ensures forall q, dq, m :: (q, dq) in Visit(root, 0) && |WithName(q.children, m)| >= 2 ==>
      |WithName(q.children, m)| < |RowsOf(root)| || (|WithName(q.children, m)| == |RowsOf(root)| && dq <= d)
  {
    var visits := Visit(root, 0);
    var cands := Candidates(visits);
    var p0, dp0, n0 :| (p0, dp0) in visits && |WithName(p0.children, n0)| >= 2;
    var c0 := RepeatOffered(visits, p0, dp0, n0);
    var k := SelectSpec(Init, cands);
    assert k >= 0 by {
      assert Beats(c0, Init);
    }
    var best := cands[k];
    var v := CandidateShape(visits, best);
    p, d, n := visits[v].0, visits[v].1, best.name.value;
    forall q, dq, m | (q, dq) in visits && |WithName(q.children, m)| >= 2
      ensures |WithName(q.children, m)| < |RowsOf(root)| || (|WithName(q.children, m)| == |RowsOf(root)| && dq <= d)
    {
      var c := RepeatOffered(visits, q, dq, m);
      assert !Beats(c, best);
    }
  }

  /** Among equally good groups the first one the walk examines is kept: every group of
      two or more examined before the chosen one is strictly worse. */
  lemma RowsFirstOfTies(root: Element) returns (k: nat)
    requires HasRepeat(root)
    ensures k < |Candidates(Visit(root, 0))|
    ensures Candidates(Visit(root, 0))[k].elems == Some(RowsOf(root))
    ensures forall j :: 0 <= j < k && Candidates(Visit(root, 0))[j].count >= 2 ==>
      Beats(Candidates(Visit(root, 0))[k], Candidates(Visit(root, 0))[j])
  {
    var visits := Visit(root, 0);
    var cands := Candidates(visits);
    var p0, dp0, n0 :| (p0, dp0) in visits && |WithName(p0.children, n0)| >= 2;
    var c0 := RepeatOffered(visits, p0, dp0, n0);
    var k0 := SelectSpec(Init, cands);
    assert k0 >= 0 by {
      assert Beats(c0, Init);
    }
    var v := CandidateShape(visits, cands[k0]);
    k := k0;
  }

  /** The detector never returns an empty list of rows. */
  lemma RowsNonEmpty(root: Element)
    ensures RowsOf(root) != []
  {
    if HasRepeat(root) {
      var p, d, n := RowsBest(root);
    } else {
      RowsFallback(root);
    }
  }

  /** Every child of every examined parent is itself examined, one level deeper; the walk
      starts at the root at depth 0. */
  lemma WalkCoversTree(root: Element)
    ensures (root, 0) in Visit(root, 0)
    ensures forall p, dp, i :: (p, dp) in Visit(root, 0) && 0 <= i < |p.children| ==>
      (p.children[i], dp + 1) in Visit(root, 0)
  {
    forall p, dp, i | (p, dp) in Visit(root, 0) && 0 <= i < |p.children|
      ensures (p.children[i], dp + 1) in Visit(root, 0)
    {
      ChildVisited(root, 0, p, dp, i);
    }
  }
}
