/**
  The container heuristic: a depth-first, pre-order search for the element
  with the most "block-like" children. The search is modelled exactly as the
  script walks the tree (`Traverse`), and is proved equal to a reference
  description: the pre-order list of visited elements (`Visited`) and the
  first element of that list whose score is strictly maximal (`IsBestChoice`).
 */
module Container {
  import opened Wrappers
  import opened Dom

  /** The search does not descend below an element with this many children or more. */
  const MaxDescendWidth: nat := 50

  /** Children that are not SCRIPT, STYLE or SPAN count as content blocks. */
  predicate CountsAsBlock(e: Element) {
    e.tag != "SCRIPT" && e.tag != "STYLE" && e.tag != "SPAN"
  }

  /** Number of children that count as content blocks. */
  function ValidCount(cs: seq<Element>): (n: nat)
    ensures n <= |cs|
    ensures n == |cs| <==> forall i :: 0 <= i < |cs| ==> CountsAsBlock(cs[i])
  {
    if cs == [] then 0
    else (if CountsAsBlock(cs[0]) then 1 else 0) + ValidCount(cs[1..])
  }

  /**
    The score an element can win with: its valid-child count when it has
    more than two children, and nothing otherwise.
   */
  function Score(e: Element): nat {
    if |e.children| > 2 then ValidCount(e.children) else 0
  }

  /** The two variables the search closes over: `best` and `maxCount`. */
  datatype Search = Search(best: Option<Element>, maxCount: nat)

  const Start := Search(None, 0)

  /** What the search does on reaching an element, before it descends. */
  function Visit(st: Search, n: Element): Search {
    if |n.children| > 2 && ValidCount(n.children) > st.maxCount then
      Search(Some(n), ValidCount(n.children))
    else
      st
  }

  /**
    Traversing a shadow root: it is not an element (its node type is 11, not
    1), so the traversal returns at once and the state is unchanged.
   */
  function TraverseShadowRoot(sr: ShadowRoot, st: Search): Search {
    st
  }

  function Traverse(n: Element, st: Search): Search
    decreases n, 1
  {
    var st1 := Visit(st, n);
    var st2 := if n.shadowRoot.Some? then TraverseShadowRoot(n.shadowRoot.value, st1) else st1;
    if |n.children| < MaxDescendWidth then TraverseChildren(n.children, st2) else st2
  }

  function TraverseChildren(cs: seq<Element>, st: Search): Search
    decreases cs, 0
  {
    if cs == [] then st else TraverseChildren(cs[1..], Traverse(cs[0], st))
  }

  /**
    Reference: the elements the search reaches, in the order it reaches
    them: the element itself, then (only when it has fewer than
    `MaxDescendWidth` children) the elements reached from each child in turn.
    Shadow roots contribute nothing.
   */
  function Visited(n: Element): seq<Element>
    decreases n, 1
  {
    [n] + (if |n.children| < MaxDescendWidth then VisitedChildren(n.children) else [])
  }

  function VisitedChildren(cs: seq<Element>): seq<Element>
    decreases cs, 0
  {
    if cs == [] then [] else Visited(cs[0]) + VisitedChildren(cs[1..])
  }

  /** The greatest score in a list of elements, 0 for an empty list. */
  function MaxScore(vs: seq<Element>): (m: nat)
    ensures forall i :: 0 <= i < |vs| ==> Score(vs[i]) <= m
    ensures m == 0 || exists i :: 0 <= i < |vs| && Score(vs[i]) == m
    decreases |vs|
  {
    if vs == [] then 0
    else
      var m := MaxScore(vs[..|vs| - 1]);
      var s := Score(vs[|vs| - 1]);
      if s > m then s else m
  }

  /**
    Reference: `r` is the answer the heuristic promises for the visit list
    `vs`: nothing when no element scores above zero, and otherwise the first
    element (in visit order) whose score is not exceeded by any other.
   */
  ghost predicate IsBestChoice(vs: seq<Element>, r: Option<Element>) {
    match r
    case None => forall j :: 0 <= j < |vs| ==> Score(vs[j]) == 0
    case Some(e) =>
      exists k :: 0 <= k < |vs| && vs[k] == e && 0 < Score(e)
        && (forall j :: 0 <= j < |vs| ==> Score(vs[j]) <= Score(e))
        && (forall j :: 0 <= j < k ==> Score(vs[j]) < Score(e))
  }

  /** Running `Visit` over a list of elements from left to right. */
  function Fold(vs: seq<Element>, st: Search): Search
    decreases |vs|
  {
    if vs == [] then st else Visit(Fold(vs[..|vs| - 1], st), vs[|vs| - 1])
  }

  lemma {:induction false} FoldAppend(a: seq<Element>, b: seq<Element>, st: Search)
    ensures Fold(a + b, st) == Fold(b, Fold(a, st))
    decreases |b|
  {
    if b == [] {
      assert a + b == a;
    } else {
      var b' := b[..|b| - 1];
      assert (a + b)[..|a + b| - 1] == a + b';
      assert (a + b)[|a + b| - 1] == b[|b| - 1];
      FoldAppend(a, b', st);
    }
  }

  lemma {:induction false} TraverseIsFold(n: Element, st: Search)
    ensures Traverse(n, st) == Fold(Visited(n), st)
    decreases n, 1
  {
    assert Fold([n], st) == Visit(st, n) by {
      assert [n][..0] == [];
    }
    if |n.children| < MaxDescendWidth {
      TraverseChildrenIsFold(n.children, Visit(st, n));
      FoldAppend([n], VisitedChildren(n.children), st);
    } else {
      assert Visited(n) == [n];
    }
  }

  lemma {:induction false} TraverseChildrenIsFold(cs: seq<Element>, st: Search)
    ensures TraverseChildren(cs, st) == Fold(VisitedChildren(cs), st)
    decreases cs, 0
  {
    if cs != [] {
      TraverseIsFold(cs[0], st);
      TraverseChildrenIsFold(cs[1..], Traverse(cs[0], st));
      FoldAppend(Visited(cs[0]), VisitedChildren(cs[1..]), st);
    }
  }

  /**
    Starting from nothing, folding `Visit` over a visit list keeps the
    greatest score seen and the first element that reached it.
   */
  lemma {:induction false} FoldFindsBest(vs: seq<Element>)
    ensures Fold(vs, Start).maxCount == MaxScore(vs)
    ensures IsBestChoice(vs, Fold(vs, Start).best)
    ensures Fold(vs, Start).best.Some? ==> Fold(vs, Start).maxCount == Score(Fold(vs, Start).best.value)
    ensures Fold(vs, Start).best.None? ==> Fold(vs, Start).maxCount == 0
    decreases |vs|
  {
    if vs != [] {
      var p := vs[..|vs| - 1];
      var x := vs[|vs| - 1];
      FoldFindsBest(p);
      var s' := Fold(p, Start);
      assert forall j :: 0 <= j < |p| ==> vs[j] == p[j];
      if Score(x) > s'.maxCount {
        assert Fold(vs, Start) == Search(Some(x), Score(x));
        assert vs[|p|] == x;
      } else {
        assert Fold(vs, Start) == s';
        match s'.best
        case None =>
        case Some(e) =>
          var k :| 0 <= k < |p| && p[k] == e && 0 < Score(e)
            && (forall j :: 0 <= j < |p| ==> Score(p[j]) <= Score(e))
            && (forall j :: 0 <= j < k ==> Score(p[j]) < Score(e));
          assert vs[k] == e;
      }
    }
  }

  /**
    The container search started at `root`: the first visited element with
    more than two children whose valid-child count is strictly greater than
    that of every element visited before it and not exceeded afterwards.
   */
  function FindBestContainer(root: Element): (r: Option<Element>)
    ensures IsBestChoice(Visited(root), r)
    ensures r.Some? ==> r.value in Visited(root) && |r.value.children| > 2
  {
    TraverseIsFold(root, Start);
    FoldFindsBest(Visited(root));
    Traverse(root, Start).best
  }

  /** A root with 50 children or more is the only element the search looks at. */
  lemma WideRootNotDescended(root: Element)
    requires |root.children| >= MaxDescendWidth
    ensures FindBestContainer(root) == (if Score(root) > 0 then Some(root) else None)
  {
    assert Visited(root) == [root];
  }

  /** The same tree with every shadow root detached. */
  function Strip(n: Element): (r: Element)
    decreases n, 1
  {
    Element(n.id, n.tag, StripAll(n.children), None)
  }

  function StripAll(cs: seq<Element>): (r: seq<Element>)
    ensures |r| == |cs|
    ensures forall i :: 0 <= i < |cs| ==> r[i].tag == cs[i].tag
    decreases cs, 0
  {
    if cs == [] then [] else [Strip(cs[0])] + StripAll(cs[1..])
  }

  function StripOption(o: Option<Element>): Option<Element> {
    if o.Some? then Some(Strip(o.value)) else None
  }

  lemma {:induction false} ValidCountByTags(a: seq<Element>, b: seq<Element>)
    requires |a| == |b|
    requires forall i :: 0 <= i < |a| ==> a[i].tag == b[i].tag
    ensures ValidCount(a) == ValidCount(b)
    decreases |a|
  {
    if a != [] {
      ValidCountByTags(a[1..], b[1..]);
    }
  }

  lemma {:induction false} StripTraverse(n: Element, st: Search)
    ensures Traverse(Strip(n), Search(StripOption(st.best), st.maxCount))
         == var t := Traverse(n, st); Search(StripOption(t.best), t.maxCount)
    decreases n, 1
  {
    ValidCountByTags(n.children, StripAll(n.children));
    var st1 := Visit(st, n);
    if |n.children| < MaxDescendWidth {
      StripTraverseChildren(n.children, st1);
    }
  }

  lemma {:induction false} StripTraverseChildren(cs: seq<Element>, st: Search)
    ensures TraverseChildren(StripAll(cs), Search(StripOption(st.best), st.maxCount))
         == var t := TraverseChildren(cs, st); Search(StripOption(t.best), t.maxCount)
    decreases cs, 0
  {
    if cs != [] {
      assert StripAll(cs)[0] == Strip(cs[0]);
      assert StripAll(cs)[1..] == StripAll(cs[1..]);
      StripTraverse(cs[0], st);
      StripTraverseChildren(cs[1..], Traverse(cs[0], st));
    }
  }

  /**
    Shadow trees are never searched: removing every shadow root from the
    tree changes nothing about the answer.
   */
  lemma ShadowRootsIgnored(root: Element)
    ensures FindBestContainer(Strip(root)) == StripOption(FindBestContainer(root))
  {
    StripTraverse(root, Start);
  }
}
