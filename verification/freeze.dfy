/**
  The intersection-observer callback: a two-state machine per element
  (visible / frozen) driven by the entries the browser delivers. Leaving the
  observed region freezes a tall enough element and pins its measured size;
  re-entering thaws a frozen element and clears the pinned size. A shared
  counter `activeFrozen` is bumped on every freeze and lowered on every thaw.
 */
module Freeze {
  import opened Wrappers
  import opened Dom

  /** Elements at or below this measured height are never frozen. */
  const MinItemHeight: int := 50

  /** A measured bounding box, in whole pixels. */
  datatype Rect = Rect(width: int, height: int)

  /** One observer entry: its target, whether it intersects the region, and its bounding box. */
  datatype Entry = Entry(target: ElemId, isIntersecting: bool, rect: Rect)

  /**
    What the callback writes on an element: the frozen class, the inline
    `height` and the inline `contain-intrinsic-size`; `None` is the empty
    string, i.e. natural sizing.
   */
  datatype Style = Style(frozen: bool, height: Option<int>, intrinsicSize: Option<Rect>)

  const Natural := Style(false, None, None)

  /** The style written when an element is frozen with bounding box `r`. */
  function Snapshot(r: Rect): Style {
    Style(true, Some(r.height), Some(r))
  }

  /** The callback's view of the page: the styles it wrote, and `activeFrozen`. */
  datatype Observer = Observer(styles: map<ElemId, Style>, activeFrozen: int)

  const Idle := Observer(map[], 0)

  function StyleOf(o: Observer, id: ElemId): Style {
    if id in o.styles then o.styles[id] else Natural
  }

  predicate IsFrozen(o: Observer, id: ElemId) {
    StyleOf(o, id).frozen
  }

  /** The elements that currently carry the frozen class. */
  function FrozenIds(o: Observer): set<ElemId> {
    set id | id in o.styles && o.styles[id].frozen
  }

  /** Processing one entry. */
  function ApplyEntry(o: Observer, e: Entry): (r: Observer)
    ensures forall id :: id != e.target ==> StyleOf(r, id) == StyleOf(o, id)
    ensures e.isIntersecting ==> !IsFrozen(r, e.target)
    ensures e.isIntersecting && IsFrozen(o, e.target) ==> StyleOf(r, e.target) == Natural && r.activeFrozen == o.activeFrozen - 1
    ensures e.isIntersecting && !IsFrozen(o, e.target) ==> r == o
    ensures !e.isIntersecting && e.rect.height <= MinItemHeight ==> r == o
    ensures !e.isIntersecting && e.rect.height > MinItemHeight ==>
              && IsFrozen(r, e.target)
              && StyleOf(r, e.target).height == Some(e.rect.height)
              && StyleOf(r, e.target).intrinsicSize == Some(Rect(e.rect.width, e.rect.height))
              && r.activeFrozen == o.activeFrozen + 1
  {
    var el := e.target;
    if e.isIntersecting then
      if IsFrozen(o, el) then Observer(o.styles[el := Natural], o.activeFrozen - 1) else o
    else if e.rect.height > MinItemHeight then
      Observer(o.styles[el := Snapshot(e.rect)], o.activeFrozen + 1)
    else
      o
  }

  /** One callback invocation: its entries, processed in delivery order. */
  function Batch(o: Observer, es: seq<Entry>): Observer
    decreases |es|
  {
    if es == [] then o else Batch(ApplyEntry(o, es[0]), es[1..])
  }

  lemma {:induction false} BatchAppend(o: Observer, a: seq<Entry>, b: seq<Entry>)
    ensures Batch(o, a + b) == Batch(Batch(o, a), b)
    decreases |a|
  {
    if a == [] {
      assert a + b == b;
    } else {
      assert (a + b)[0] == a[0];
      assert (a + b)[1..] == a[1..] + b;
      BatchAppend(ApplyEntry(o, a[0]), a[1..], b);
    }
  }

  // ---------------------------------------------------------------------------
  // Snapshots: a frozen element always carries its pre-freeze size
  // ---------------------------------------------------------------------------

  /**
    Every element is either untouched (natural sizing) or frozen with an
    inline height equal to the height of its intrinsic-size snapshot, and
    that height is above the floor.
   */
  ghost predicate SnapshotsSound(o: Observer) {
    forall id :: id in o.styles ==>
      var s := o.styles[id];
      if s.frozen then
        s.intrinsicSize.Some? && s.height == Some(s.intrinsicSize.value.height) && s.height.value > MinItemHeight
      else
        s == Natural
  }

  lemma {:induction false} BatchKeepsSnapshotsSound(o: Observer, es: seq<Entry>)
    requires SnapshotsSound(o)
    ensures SnapshotsSound(Batch(o, es))
    decreases |es|
  {
    if es != [] {
      var o' := ApplyEntry(o, es[0]);
      assert SnapshotsSound(o') by {
        forall id | id in o'.styles
          ensures var s := o'.styles[id];
                  if s.frozen then s.intrinsicSize.Some? && s.height == Some(s.intrinsicSize.value.height) && s.height.value > MinItemHeight
                  else s == Natural
        {
          if id != es[0].target {
            assert StyleOf(o', id) == StyleOf(o, id);
          }
        }
      }
      BatchKeepsSnapshotsSound(o', es[1..]);
    }
  }

  // ---------------------------------------------------------------------------
  // The height floor
  // ---------------------------------------------------------------------------

  /**
    An element that is not frozen, and whose every non-intersecting entry in
    the batch measures at most `MinItemHeight`, comes out of the batch with
    its style untouched: it is never frozen and no size is pinned on it.
   */
  lemma {:induction false} ShortElementNeverFrozen(o: Observer, es: seq<Entry>, x: ElemId)
    requires !IsFrozen(o, x)
    requires forall i :: 0 <= i < |es| && es[i].target == x && !es[i].isIntersecting ==> es[i].rect.height <= MinItemHeight
    ensures StyleOf(Batch(o, es), x) == StyleOf(o, x)
    decreases |es|
  {
    if es != [] {
      var o' := ApplyEntry(o, es[0]);
      assert StyleOf(o', x) == StyleOf(o, x);
      ShortElementNeverFrozen(o', es[1..], x);
    }
  }

  /** Only elements that were frozen already or are targets of the batch can be frozen after it. */
  lemma {:induction false} FrozenWithinTargets(o: Observer, es: seq<Entry>)
    ensures forall id :: IsFrozen(Batch(o, es), id) ==> IsFrozen(o, id) || exists i :: 0 <= i < |es| && es[i].target == id
    decreases |es|
  {
    if es != [] {
      var o' := ApplyEntry(o, es[0]);
      FrozenWithinTargets(o', es[1..]);
      forall id | IsFrozen(Batch(o, es), id)
        ensures IsFrozen(o, id) || exists i :: 0 <= i < |es| && es[i].target == id
      {
        if !IsFrozen(o', id) {
          var i :| 0 <= i < |es[1..]| && es[1..][i].target == id;
          assert es[i + 1].target == id;
        } else if id == es[0].target {
        } else {
          assert StyleOf(o', id) == StyleOf(o, id);
        }
      }
    }
  }

  // ---------------------------------------------------------------------------
  // Counter bookkeeping
  // ---------------------------------------------------------------------------

  /** How far `activeFrozen` runs ahead of the number of frozen elements. */
  function Excess(o: Observer): int {
    o.activeFrozen - |FrozenIds(o)|
  }

  /**
    A freeze of an element that is frozen already: the freeze branch has no
    "already frozen" check, so it counts the element a second time.
   */
  predicate Redundant(o: Observer, e: Entry) {
    !e.isIntersecting && e.rect.height > MinItemHeight && IsFrozen(o, e.target)
  }

  /** The number of redundant freezes a batch performs. */
  function RedundantCount(o: Observer, es: seq<Entry>): nat
    decreases |es|
  {
    if es == [] then 0
    else (if Redundant(o, es[0]) then 1 else 0) + RedundantCount(ApplyEntry(o, es[0]), es[1..])
  }

  lemma FrozenIdsUpdate(o: Observer, id: ElemId, s: Style, n: int)
    ensures s.frozen ==> FrozenIds(Observer(o.styles[id := s], n)) == FrozenIds(o) + {id}
    ensures !s.frozen ==> FrozenIds(Observer(o.styles[id := s], n)) == FrozenIds(o) - {id}
  {
  }

  /** One entry moves the excess by exactly one when it is a redundant freeze, and not at all otherwise. */
  lemma ApplyEntryExcess(o: Observer, e: Entry)
    ensures Excess(ApplyEntry(o, e)) == Excess(o) + (if Redundant(o, e) then 1 else 0)
  {
    var t := e.target;
    var r := ApplyEntry(o, e);
    assert t in FrozenIds(o) <==> IsFrozen(o, t);
    if e.isIntersecting && IsFrozen(o, t) {
      assert r == Observer(o.styles[t := Natural], o.activeFrozen - 1);
      FrozenIdsUpdate(o, t, Natural, o.activeFrozen - 1);
      assert FrozenIds(r) == FrozenIds(o) - {t};
      assert |FrozenIds(r)| == |FrozenIds(o)| - 1;
    } else if !e.isIntersecting && e.rect.height > MinItemHeight {
      assert r == Observer(o.styles[t := Snapshot(e.rect)], o.activeFrozen + 1);
      FrozenIdsUpdate(o, t, Snapshot(e.rect), o.activeFrozen + 1);
      assert FrozenIds(r) == FrozenIds(o) + {t};
      if IsFrozen(o, t) {
        assert FrozenIds(r) == FrozenIds(o);
      } else {
        assert |FrozenIds(r)| == |FrozenIds(o)| + 1;
      }
    } else {
      assert r == o;
    }
  }

  /** Over a batch, the counter drifts up by exactly the number of redundant freezes. */
  lemma {:induction false} BatchExcess(o: Observer, es: seq<Entry>)
    ensures Excess(Batch(o, es)) == Excess(o) + RedundantCount(o, es)
    decreases |es|
  {
    if es != [] {
      ApplyEntryExcess(o, es[0]);
      BatchExcess(ApplyEntry(o, es[0]), es[1..]);
    }
  }

  /**
    The delivery pattern the browser's observer follows: between two
    non-intersecting entries for the same element there is an intersecting
    one for it.
   */
  ghost predicate Alternates(es: seq<Entry>) {
    forall i, j :: 0 <= i < j < |es| && es[i].target == es[j].target && !es[i].isIntersecting && !es[j].isIntersecting ==>
      exists k :: i < k < j && es[k].target == es[i].target && es[k].isIntersecting
  }

  /**
    Every element frozen at the start that gets a non-intersecting entry
    gets an intersecting one before it.
   */
  ghost predicate Primed(o: Observer, es: seq<Entry>) {
    forall i :: 0 <= i < |es| && !es[i].isIntersecting && IsFrozen(o, es[i].target) ==>
      exists k :: 0 <= k < i && es[k].target == es[i].target && es[k].isIntersecting
  }

  lemma {:induction false} PrimedAlternatingHasNoRedundancy(o: Observer, es: seq<Entry>)
    requires Alternates(es) && Primed(o, es)
    ensures RedundantCount(o, es) == 0
    decreases |es|
  {
    if es != [] {
      var e := es[0];
      var o' := ApplyEntry(o, e);
      var rest := es[1..];
      assert !Redundant(o, e);
      assert Alternates(rest) by {
        forall i, j | 0 <= i < j < |rest| && rest[i].target == rest[j].target && !rest[i].isIntersecting && !rest[j].isIntersecting
          ensures exists k :: i < k < j && rest[k].target == rest[i].target && rest[k].isIntersecting
        {
          assert es[i + 1] == rest[i] && es[j + 1] == rest[j];
          var k :| i + 1 < k < j + 1 && es[k].target == es[i + 1].target && es[k].isIntersecting;
          assert rest[k - 1] == es[k];
        }
      }
      assert Primed(o', rest) by {
        forall i | 0 <= i < |rest| && !rest[i].isIntersecting && IsFrozen(o', rest[i].target)
          ensures exists k :: 0 <= k < i && rest[k].target == rest[i].target && rest[k].isIntersecting
        {
          var t := rest[i].target;
          assert es[i + 1] == rest[i];
          if t == e.target {
            assert !e.isIntersecting;
            var k :| 0 < k < i + 1 && es[k].target == es[0].target && es[k].isIntersecting;
            assert rest[k - 1] == es[k];
          } else {
            assert StyleOf(o', t) == StyleOf(o, t);
            var k :| 0 <= k < i + 1 && es[k].target == es[i + 1].target && es[k].isIntersecting;
            assert k != 0;
            assert rest[k - 1] == es[k];
          }
        }
      }
      PrimedAlternatingHasNoRedundancy(o', rest);
    }
  }

  /**
    When entries alternate per element and none of their targets is frozen
    at the start, the batch keeps `activeFrozen` exactly as far from the
    number of frozen elements as it was.
   */
  lemma AlternatingBatchKeepsCount(o: Observer, es: seq<Entry>)
    requires Alternates(es)
    requires forall i :: 0 <= i < |es| ==> !IsFrozen(o, es[i].target)
    ensures Excess(Batch(o, es)) == Excess(o)
  {
    PrimedAlternatingHasNoRedundancy(o, es);
    BatchExcess(o, es);
  }

  /**
    Without alternation the counter drifts: two non-intersecting entries in
    a row for one tall element count it twice while only one element is
    frozen.
   */
  lemma DoubleFreezeDrifts()
    ensures var es := [Entry(7, false, Rect(640, 120)), Entry(7, false, Rect(640, 120))];
            Batch(Idle, es).activeFrozen == 2 && FrozenIds(Batch(Idle, es)) == {7}
  {
    var es := [Entry(7, false, Rect(640, 120)), Entry(7, false, Rect(640, 120))];
    var o1 := ApplyEntry(Idle, es[0]);
    var o2 := ApplyEntry(o1, es[1]);
    assert Batch(Idle, es) == o2 by {
      assert es[1..][1..] == [];
    }
    assert o2.styles == map[7 := Snapshot(Rect(640, 120))];
  }
}
