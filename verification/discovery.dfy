/**
  The periodic scan: re-locks the container when needed, then hands every
  child of the container that has not been seen before, and is not a STYLE,
  SCRIPT or LINK element, to the intersection observer exactly once,
  recording it in the presence set and bumping the observed counter.
 */
module Discovery {
  import opened Wrappers
  import opened Dom
  import Container

  /**
    The scanner's state: the identity of the locked container
    (`currentTargetContainer`), the presence set of observed elements and
    `observedCount`.
   */
  datatype Radar = Radar(container: Option<ElemId>, observed: set<ElemId>, count: nat)

  const Initial := Radar(None, {}, 0)

  /** STYLE, SCRIPT and LINK children are never handed to the observer. */
  predicate Registrable(e: Element) {
    e.tag != "STYLE" && e.tag != "SCRIPT" && e.tag != "LINK"
  }

  /** The ids among `cs` that a scan should start observing, given what was already seen. */
  function NewIds(cs: seq<Element>, seen: set<ElemId>): set<ElemId> {
    set e | e in cs && Registrable(e) && e.id !in seen :: e.id
  }

  predicate Distinct(s: seq<ElemId>) {
    forall i, j :: 0 <= i < j < |s| ==> s[i] != s[j]
  }

  /** Result of one registration pass; `calls` lists the `observe` calls in order. */
  datatype Registration = Registration(observed: set<ElemId>, count: nat, calls: seq<ElemId>)

  lemma NewIdsTake(cs: seq<Element>, seen: set<ElemId>)
    requires cs != [] && Registrable(cs[0]) && cs[0].id !in seen
    ensures NewIds(cs, seen) == {cs[0].id} + NewIds(cs[1..], seen + {cs[0].id})
    ensures cs[0].id !in NewIds(cs[1..], seen + {cs[0].id})
  {
    assert forall e :: e in cs <==> e == cs[0] || e in cs[1..];
  }

  lemma NewIdsSkip(cs: seq<Element>, seen: set<ElemId>)
    requires cs != [] && !(Registrable(cs[0]) && cs[0].id !in seen)
    ensures NewIds(cs, seen) == NewIds(cs[1..], seen)
  {
    assert forall e :: e in cs <==> e == cs[0] || e in cs[1..];
  }

  /** Putting a fresh id in front of a registration's calls. */
  lemma CallsCons(id: ElemId, calls: seq<ElemId>, ids: set<ElemId>)
    requires Distinct(calls) && |calls| == |ids|
    requires forall x :: x in calls <==> x in ids
    requires id !in ids
    ensures Distinct([id] + calls) && |[id] + calls| == |{id} + ids|
    ensures forall x :: x in [id] + calls <==> x in {id} + ids
  {
    assert ({id} + ids) - {id} == ids;
  }

  /** What a registration pass over `cs` must achieve, starting from `observed` and `count`. */
  ghost predicate Registers(r: Registration, cs: seq<Element>, observed: set<ElemId>, count: nat) {
    && r.observed == observed + NewIds(cs, observed)
    && r.count == count + |NewIds(cs, observed)|
    && |r.calls| == |NewIds(cs, observed)| && Distinct(r.calls)
    && (forall id :: id in r.calls <==> id in NewIds(cs, observed))
  }

  /** Observing the first child, then registering the rest, registers them all. */
  lemma TakeFirst(cs: seq<Element>, observed: set<ElemId>, count: nat, rest: Registration)
    requires cs != [] && Registrable(cs[0]) && cs[0].id !in observed
    requires Registers(rest, cs[1..], observed + {cs[0].id}, count + 1)
    ensures Registers(Registration(rest.observed, rest.count, [cs[0].id] + rest.calls), cs, observed, count)
  {
    NewIdsTake(cs, observed);
    CallsCons(cs[0].id, rest.calls, NewIds(cs[1..], observed + {cs[0].id}));
  }

  /**
    The registration loop over the container's children: each child whose id
    is not yet in the presence set and whose tag is registrable is observed,
    added to the set and counted.
   */
  function Register(cs: seq<Element>, observed: set<ElemId>, count: nat): (r: Registration)
    ensures r.observed == observed + NewIds(cs, observed)
    ensures r.count == count + |NewIds(cs, observed)|
    ensures |r.calls| == |NewIds(cs, observed)| && Distinct(r.calls)
    ensures forall id :: id in r.calls <==> id in NewIds(cs, observed)
    decreases |cs|
  {
    if cs == [] then Registration(observed, count, [])
    else
      var child := cs[0];
      if child.id !in observed && Registrable(child) then
        var rest := Register(cs[1..], observed + {child.id}, count + 1);
        TakeFirst(cs, observed, count, rest);
        Registration(rest.observed, rest.count, [child.id] + rest.calls)
      else
        NewIdsSkip(cs, observed);
        Register(cs[1..], observed, count)
  }

  /** The current children of the locked container, read from the page; none when nothing is locked. */
  function ChildrenOf(c: Option<ElemId>, page: LiveChildren): seq<Element> {
    if c.Some? then page(c.value) else []
  }

  function IdOf(e: Option<Element>): Option<ElemId> {
    if e.Some? then Some(e.value.id) else None
  }

  /** The container is searched for again only when nothing is observed yet, none is locked, or it is detached. */
  predicate NeedsSearch(r: Radar, connected: bool) {
    r.count == 0 || r.container.None? || !connected
  }

  /** Step 1 of the scan: possibly replace the locked container. */
  function Relock(r: Radar, root: Element, connected: bool): (c: Option<ElemId>)
    ensures NeedsSearch(r, connected) && Container.FindBestContainer(root).Some? ==> c == IdOf(Container.FindBestContainer(root))
    ensures !(NeedsSearch(r, connected) && Container.FindBestContainer(root).Some?) ==> c == r.container
  {
    if NeedsSearch(r, connected) then
      var best := Container.FindBestContainer(root);
      if best.Some? && Some(best.value.id) != r.container then Some(best.value.id) else r.container
    else
      r.container
  }

  /** What a scan hands back: the new scanner state and the `observe` calls it made. */
  datatype ScanOutcome = ScanOutcome(radar: Radar, calls: seq<ElemId>)

  /**
    One scan. `root` is the element the container search starts from,
    `connected` says whether the currently locked container is still attached
    to the document, and `page` gives every element's children as they are
    at the time of the scan.
   */
  function Scan(r: Radar, root: Element, connected: bool, page: LiveChildren): (out: ScanOutcome)
    ensures out.radar.container == Relock(r, root, connected)
    ensures var added := NewIds(ChildrenOf(out.radar.container, page), r.observed);
            && out.radar.observed == r.observed + added
            && out.radar.count == r.count + |added|
            && Distinct(out.calls)
            && (forall id :: id in out.calls <==> id in added)
    ensures r.count == |r.observed| ==> out.radar.count == |out.radar.observed|
  {
    var c := Relock(r, root, connected);
    var reg := Register(ChildrenOf(c, page), r.observed, r.count);
    ScanOutcome(Radar(c, reg.observed, reg.count), reg.calls)
  }

  /**
    A turn the page appended to the locked container since the last scan is
    picked up: when the container stays locked (something is observed and
    it is still attached), every registrable child it now has that was not
    observed before is passed to the observer and recorded.
   */
  lemma AppendedChildObserved(r: Radar, root: Element, page: LiveChildren, e: Element)
    requires r.container.Some? && r.count > 0
    requires e in page(r.container.value) && Registrable(e) && e.id !in r.observed
    ensures Scan(r, root, true, page).radar.container == r.container
    ensures e.id in Scan(r, root, true, page).calls
    ensures e.id in Scan(r, root, true, page).radar.observed
  {
    assert e.id in NewIds(page(r.container.value), r.observed);
  }

  /**
    A STYLE, SCRIPT or LINK child that was not observed before a
    registration pass is neither observed nor passed to the observer by it.
    (No other child shares its identity.)
   */
  lemma ExcludedChildNeverObserved(cs: seq<Element>, observed: set<ElemId>, count: nat, e: Element)
    requires e in cs && !Registrable(e) && e.id !in observed
    requires forall i :: 0 <= i < |cs| && cs[i].id == e.id ==> cs[i] == e
    ensures e.id !in Register(cs, observed, count).observed
    ensures e.id !in Register(cs, observed, count).calls
  {
    assert e.id !in NewIds(cs, observed);
  }

  /** After a scan, scanning the same page again keeps the container it locked. */
  lemma RelockStable(r: Radar, root: Element, connected: bool, page: LiveChildren)
    ensures var once := Scan(r, root, connected, page).radar;
            Relock(once, root, connected) == once.container
  {
    var once := Scan(r, root, connected, page).radar;
    assert once.container == Relock(r, root, connected);
    assert once.count >= r.count;
  }

  /** Registering the same children a second time finds nothing new. */
  lemma {:induction false} RegisterIdempotent(cs: seq<Element>, observed: set<ElemId>, count: nat)
    ensures var once := Register(cs, observed, count);
            Register(cs, once.observed, once.count) == Registration(once.observed, once.count, [])
  {
    var once := Register(cs, observed, count);
    assert NewIds(cs, once.observed) == {} by {
      forall e | e in cs && Registrable(e)
        ensures e.id in once.observed
      {
        assert e.id in NewIds(cs, observed) || e.id in observed;
      }
    }
    var twice := Register(cs, once.observed, once.count);
    assert |twice.calls| == 0;
  }

  /**
    Scanning an unchanged page twice: the second scan keeps the same
    container, observes nothing and leaves the state unchanged.
   */
  lemma {:induction false} ScanIdempotent(r: Radar, root: Element, connected: bool, page: LiveChildren)
    ensures var once := Scan(r, root, connected, page).radar;
            Scan(once, root, connected, page) == ScanOutcome(once, [])
  {
    var first := Scan(r, root, connected, page);
    var once := first.radar;
    RelockStable(r, root, connected, page);
    var c := Relock(r, root, connected);
    var reg := Register(ChildrenOf(c, page), r.observed, r.count);
    assert once == Radar(c, reg.observed, reg.count);
    RegisterIdempotent(ChildrenOf(c, page), r.observed, r.count);
  }

  /** The inputs of one scan as the page presents them. */
  datatype Probe = Probe(root: Element, connected: bool, page: LiveChildren)

  /** A sequence of scans; `calls` concatenates their `observe` calls. */
  function ScanAll(r: Radar, ps: seq<Probe>): ScanOutcome
    decreases |ps|
  {
    if ps == [] then ScanOutcome(r, [])
    else
      var first := Scan(r, ps[0].root, ps[0].connected, ps[0].page);
      var rest := ScanAll(first.radar, ps[1..]);
      ScanOutcome(rest.radar, first.calls + rest.calls)
  }

  lemma DistinctConcat(a: seq<ElemId>, b: seq<ElemId>)
    requires Distinct(a) && Distinct(b)
    requires forall x :: x in a ==> x !in b
    ensures Distinct(a + b)
  {
    forall i, j | 0 <= i < j < |a + b| ensures (a + b)[i] != (a + b)[j] {
      if j < |a| {
      } else if i >= |a| {
        assert (a + b)[i] == b[i - |a|] && (a + b)[j] == b[j - |a|];
      } else {
        assert (a + b)[i] in a && (a + b)[j] == b[j - |a|];
      }
    }
  }

  /**
    However many scans run, every element is handed to the observer at most
    once, never when it was already observed, and the counter keeps counting
    the presence set.
   */
  lemma {:induction false} EachElementObservedOnce(r: Radar, ps: seq<Probe>)
    ensures Distinct(ScanAll(r, ps).calls)
    ensures forall id :: id in ScanAll(r, ps).calls ==> id !in r.observed && id in ScanAll(r, ps).radar.observed
    ensures r.observed <= ScanAll(r, ps).radar.observed
    ensures r.count == |r.observed| ==> ScanAll(r, ps).radar.count == |ScanAll(r, ps).radar.observed|
    decreases |ps|
  {
    if ps != [] {
      var first := Scan(r, ps[0].root, ps[0].connected, ps[0].page);
      EachElementObservedOnce(first.radar, ps[1..]);
      var rest := ScanAll(first.radar, ps[1..]);
      assert ScanAll(r, ps) == ScanOutcome(rest.radar, first.calls + rest.calls);
      assert forall x :: x in first.calls ==> x in first.radar.observed && x !in r.observed;
      DistinctConcat(first.calls, rest.calls);
    }
  }
}
