/**
  The whole script as one state machine: the periodic scan and the observer
  callback share `observedCount` and `activeFrozen`. Scans and callback
  batches are the two kinds of step; each is atomic.
 */
module Booster {
  import opened Wrappers
  import opened Dom
  import opened Discovery
  import opened Freeze

  datatype Booster = Booster(radar: Radar, observer: Observer)

  const Startup := Booster(Initial, Idle)

  /** A scan of the page, or one delivery of observer entries. */
  datatype Event = ScanPage(root: Element, connected: bool, page: LiveChildren) | Deliver(entries: seq<Entry>)

  function Step(b: Booster, ev: Event): Booster {
    match ev
    case ScanPage(root, connected, page) => Booster(Scan(b.radar, root, connected, page).radar, b.observer)
    case Deliver(es) => Booster(b.radar, Batch(b.observer, es))
  }

  function Run(b: Booster, evs: seq<Event>): Booster
    decreases |evs|
  {
    if evs == [] then b else Run(Step(b, evs[0]), evs[1..])
  }

  /** The entries delivered over a run, in order. */
  function Delivered(evs: seq<Event>): seq<Entry>
    decreases |evs|
  {
    if evs == [] then []
    else (if evs[0].Deliver? then evs[0].entries else []) + Delivered(evs[1..])
  }

  /** The observer only reports on elements that were handed to it. */
  ghost predicate Reported(b: Booster, es: seq<Entry>) {
    forall i :: 0 <= i < |es| ==> es[i].target in b.radar.observed
  }

  ghost predicate ReportedRun(b: Booster, evs: seq<Event>)
    decreases |evs|
  {
    evs == [] || ((evs[0].Deliver? ==> Reported(b, evs[0].entries)) && ReportedRun(Step(b, evs[0]), evs[1..]))
  }

  /**
    What holds whatever the observer delivers: the counter counts the
    presence set, only observed elements are frozen, every frozen element
    carries a sound snapshot, and `activeFrozen` never falls below the number
    of frozen elements.
   */
  ghost predicate Sound(b: Booster) {
    && b.radar.count == |b.radar.observed|
    && FrozenIds(b.observer) <= b.radar.observed
    && SnapshotsSound(b.observer)
    && Excess(b.observer) >= 0
  }

  /** `Sound`, with `activeFrozen` equal to the number of frozen elements. */
  ghost predicate Exact(b: Booster) {
    Sound(b) && Excess(b.observer) == 0
  }

  lemma {:induction false} StepKeepsSound(b: Booster, ev: Event)
    requires Sound(b)
    requires ev.Deliver? ==> Reported(b, ev.entries)
    ensures Sound(Step(b, ev))
    ensures Excess(Step(b, ev).observer) >= Excess(b.observer)
  {
    match ev
    case ScanPage(root, connected, page) =>
      var out := Scan(b.radar, root, connected, page);
      assert b.radar.observed <= out.radar.observed;
    case Deliver(es) =>
      var o := Batch(b.observer, es);
      BatchKeepsSnapshotsSound(b.observer, es);
      BatchExcess(b.observer, es);
      FrozenWithinTargets(b.observer, es);
      forall id | id in FrozenIds(o) ensures id in b.radar.observed {
        assert IsFrozen(o, id);
        if IsFrozen(b.observer, id) {
          assert id in FrozenIds(b.observer);
        } else {
          var i :| 0 <= i < |es| && es[i].target == id;
        }
      }
  }

  /** The scanner never touches the observer: a run's observer is one batch of everything delivered. */
  lemma {:induction false} RunObserver(b: Booster, evs: seq<Event>)
    ensures Run(b, evs).observer == Batch(b.observer, Delivered(evs))
    decreases |evs|
  {
    if evs != [] {
      RunObserver(Step(b, evs[0]), evs[1..]);
      var now := if evs[0].Deliver? then evs[0].entries else [];
      BatchAppend(b.observer, now, Delivered(evs[1..]));
      assert Step(b, evs[0]).observer == Batch(b.observer, now);
    }
  }

  /** Whatever is delivered, the weak invariant holds on every run from startup. */
  lemma {:induction false} RunKeepsSound(b: Booster, evs: seq<Event>)
    requires Sound(b) && ReportedRun(b, evs)
    ensures Sound(Run(b, evs))
    decreases |evs|
  {
    if evs != [] {
      StepKeepsSound(b, evs[0]);
      RunKeepsSound(Step(b, evs[0]), evs[1..]);
    }
  }

  lemma StartupIsExact()
    ensures Exact(Startup)
  {
    assert FrozenIds(Startup.observer) == {};
  }

  /**
    With alternating entries per element, `activeFrozen` equals the number
    of frozen elements after any run from startup, and therefore lies
    between 0 and `observedCount`.
   */
  lemma AlternatingRunIsExact(evs: seq<Event>)
    requires ReportedRun(Startup, evs)
    requires Alternates(Delivered(evs))
    ensures Exact(Run(Startup, evs))
    ensures 0 <= Run(Startup, evs).observer.activeFrozen <= Run(Startup, evs).radar.count
  {
    StartupIsExact();
    RunKeepsSound(Startup, evs);
    RunObserver(Startup, evs);
    AlternatingBatchKeepsCount(Startup.observer, Delivered(evs));
    CountersBounded(Run(Startup, evs));
  }

  /** Without any assumption on delivery order, the counter is still never negative. */
  lemma ActiveFrozenNeverNegative(evs: seq<Event>)
    requires ReportedRun(Startup, evs)
    ensures Run(Startup, evs).observer.activeFrozen >= |FrozenIds(Run(Startup, evs).observer)| >= 0
  {
    StartupIsExact();
    RunKeepsSound(Startup, evs);
  }

  /** When the counters are exact, the frozen counter is between 0 and the observed counter. */
  lemma CountersBounded(b: Booster)
    requires Exact(b)
    ensures 0 <= b.observer.activeFrozen <= b.radar.count
  {
    SubsetCard(FrozenIds(b.observer), b.radar.observed);
  }

  lemma SubsetCard(a: set<ElemId>, s: set<ElemId>)
    requires a <= s
    ensures |a| <= |s|
  {
    assert s == a + (s - a);
  }

  /**
    Without alternation the frozen counter can exceed `observedCount`: one
    observed tall element that receives two non-intersecting entries in a
    row is counted twice.
   */
  lemma DriftExceedsObserved()
    ensures var b := Booster(Radar(None, {7}, 1), Idle);
            var after := Run(b, [Deliver([Entry(7, false, Rect(640, 120)), Entry(7, false, Rect(640, 120))])]);
            ReportedRun(b, [Deliver([Entry(7, false, Rect(640, 120)), Entry(7, false, Rect(640, 120))])])
            && after.observer.activeFrozen == 2 > after.radar.count
  {
    DoubleFreezeDrifts();
  }
}
