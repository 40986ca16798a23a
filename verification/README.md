# Google AI Studio Performance Booster — verified model of the freeze/thaw core

The userscript makes a long chat transcript cheaper to render by freezing
conversation blocks that are far off screen. A frozen block keeps its
measured size, but its contents leave the render tree. The script has three
parts:

- **Observer callback.** The script's intersection-observer callback is a
  two-state machine per element, VISIBLE or FROZEN.
  - An element that leaves the observed region is frozen only when its
    measured height is above 50 pixels. Freezing pins that height and its
    intrinsic size (width, height), and adds one to `activeFrozen`.
  - An element that comes back into the region is thawed only if it is
    frozen. Thawing clears both pinned sizes and takes one from
    `activeFrozen`.
- **Container search (`findBestContainer`).** A pre-order walk of the
  document tree that picks the element with the most "block-like" children.
  - Block-like means the child's tag is not SCRIPT, STYLE or SPAN.
  - Only elements with more than two children can win.
  - On a tie, the first element reached wins.
  - The walk does not go below an element with 50 or more children.
  - Shadow roots are never searched: the walk is handed the shadow root,
    which is not an element, so it returns at once.
- **Registration scan (`radarScan`).** A periodic scan that searches for
  the container again only when no element is observed yet, no container is
  locked, or the locked container is detached. A search that finds nothing
  never replaces the locked container. The scan then hands every unseen
  child that is not STYLE, SCRIPT or LINK to the observer exactly once. It
  records each such child in a presence set and adds one to `observedCount`.

The Dafny model has one module per part:

- `Container` models the search.
- `Discovery` models the scan.
- `Freeze` models the callback.
- `Booster` combines scans and callback batches into one state machine.

`Wrappers` holds the `Option` type, and `Dom` holds the immutable element
tree. An element's identity is its `id` field. The presence set is a
`set<ElemId>`, and the scanner's state holds the locked container by
identity. Each scan is given the page as it is at that instant
(`LiveChildren`: every element's current children). After the relock
step, the scan reads the locked container's children from that view, as
line 146 reads the live `children` collection.

The search is proved equal to a reference definition:

- `Visited` is the pruned pre-order list of elements the walk reaches.
- `IsBestChoice` says which element of that list should be picked: the
  first one whose score no other element exceeds.

The counters are handled in three ways:

- **Unconditional.** `activeFrozen` is never below the number of frozen
  elements.
- **Exact under alternation.** When an element never gets two
  non-intersecting entries without an intersecting one in between,
  `activeFrozen` equals the number of frozen elements. It then lies between
  0 and `observedCount`.
- **Counterexample.** Two non-intersecting entries in a row for one tall
  element push `activeFrozen` above `observedCount`. The freeze branch has
  no "already frozen" check.

Notes on the code as written:

- **No "already frozen" guard.** The freeze branch (lines 62-72) has no
  already-frozen check, unlike the thaw branch (line 55). This is modelled
  as written.
- **Container location.** The container is found only by the child-count
  heuristic of `findBestContainer`.
- **No nesting exclusion.** The scan registers every registrable child of
  the container, wherever it sits in the page.

## Model

| member | source | states |
|---|---|---|
| Container.ValidCount | google-ai-studio-booster.user.js:103-112 | the count never exceeds the number of children, and equals it exactly when no child is SCRIPT, STYLE or SPAN |
| Container.FoldFindsBest | google-ai-studio-booster.user.js:97-117 | visiting a list of elements with the `validCount > maxCount` update keeps the greatest score seen and the first element (in visit order) that reached it; an element with a score of 0 is never chosen |
| Container.TraverseIsFold | google-ai-studio-booster.user.js:100-126 | the recursive walk visits exactly the pruned pre-order list: the element, then each child's subtree in order, and only when the element has fewer than 50 children |
| Container.FindBestContainer | google-ai-studio-booster.user.js:96-130 | the result is null when no visited element scores above zero; otherwise it is a visited element with more than two children whose valid-child count no visited element exceeds, and that every earlier visited element falls strictly short of (the earliest one wins a tie) |
| Container.WideRootNotDescended | google-ai-studio-booster.user.js:121-125 | a root with 50 or more children is the only element examined: the answer is the root itself when it scores above zero, and null otherwise |
| Container.ShadowRootsIgnored | google-ai-studio-booster.user.js:100-101 | shadow roots contribute nothing: detaching every shadow root in the tree leaves the answer unchanged |
| Discovery.Register | google-ai-studio-booster.user.js:146-157 | the presence set grows by exactly the unseen ids of children that are not STYLE/SCRIPT/LINK; the counter grows by the number of those ids; each of them is passed to `observe` exactly once and nothing else is passed |
| Discovery.Relock | google-ai-studio-booster.user.js:135-142 | the locked container changes only when the scan needs a search (nothing observed yet, no container, or a detached one) and the search finds an element; it then becomes that element; a null search result keeps the current container |
| Discovery.Scan | google-ai-studio-booster.user.js:132-160 | one scan locks the container as above, then registers the new registrable children the locked container has at the time of the scan; if `observedCount` counted the presence set before the scan, it still does afterwards |
| Discovery.AppendedChildObserved | google-ai-studio-booster.user.js:136-154 | when something is observed and the locked container is still attached, the scan keeps that container, and every registrable child it now has that was not observed before, including one appended since the last scan, is passed to `observe` and recorded |
| Discovery.ExcludedChildNeverObserved | google-ai-studio-booster.user.js:150-151 | a STYLE, SCRIPT or LINK child that was not observed before a registration pass, and whose identity no other child shares, is neither added to the presence set nor passed to the observer by that pass |
| Discovery.RegisterIdempotent | google-ai-studio-booster.user.js:149 | registering the same children a second time passes nothing to the observer and changes neither the set nor the counter |
| Discovery.ScanIdempotent | google-ai-studio-booster.user.js:136-157 | a second scan of the same page (same search root, connectedness and children) keeps the container, observes nothing and leaves the state unchanged |
| Discovery.EachElementObservedOnce | google-ai-studio-booster.user.js:149-154 | over any number of scans, no element is passed to `observe` twice or when it was already observed; the counter keeps equalling the size of the presence set |
| Freeze.ApplyEntry | google-ai-studio-booster.user.js:51-73 | other elements are untouched; an intersecting entry on a frozen element clears both pinned sizes and the frozen flag and lowers the counter, while on a non-frozen element it changes nothing; a non-intersecting entry of height at most 50 changes nothing; a taller one freezes the element with pinned height equal to the measured height and intrinsic size equal to the measured (width, height), and raises the counter |
| Freeze.BatchAppend | google-ai-studio-booster.user.js:50-51 | processing entries in delivery order composes: two batches in a row act like one batch of both |
| Freeze.BatchKeepsSnapshotsSound | google-ai-studio-booster.user.js:55-70 | after any batch, every element either has natural sizing and no frozen flag, or is frozen with an inline height equal to its intrinsic-size height and above 50 |
| Freeze.ShortElementNeverFrozen | google-ai-studio-booster.user.js:66 | an element that is not frozen, and whose non-intersecting entries all measure at most 50, leaves any batch with its style unchanged |
| Freeze.FrozenWithinTargets | google-ai-studio-booster.user.js:51-52 | an element frozen after a batch was frozen before it or is the target of one of its entries |
| Freeze.ApplyEntryExcess | google-ai-studio-booster.user.js:53-72 | one entry raises `activeFrozen` minus the number of frozen elements by exactly one when it freezes an element that is already frozen, and leaves it unchanged otherwise |
| Freeze.BatchExcess | google-ai-studio-booster.user.js:50-74 | over a batch, `activeFrozen` minus the number of frozen elements grows by exactly the number of re-freezes of already-frozen elements |
| Freeze.PrimedAlternatingHasNoRedundancy | google-ai-studio-booster.user.js:62-72 | if no element gets two non-intersecting entries without an intersecting one in between, and each element frozen at the start gets an intersecting entry before any non-intersecting one, then no freeze hits an already-frozen element |
| Freeze.AlternatingBatchKeepsCount | google-ai-studio-booster.user.js:53-72 | with alternating entries whose targets start unfrozen, the batch keeps `activeFrozen` exactly as far from the number of frozen elements as before |
| Freeze.DoubleFreezeDrifts | google-ai-studio-booster.user.js:62-72 | two non-intersecting entries in a row for one 120-pixel element leave `activeFrozen` at 2 while only that one element is frozen |
| Booster.StepKeepsSound | google-ai-studio-booster.user.js:49-160 | a scan, or a batch that reports only observed elements, keeps these facts: the counter equals the size of the presence set; frozen elements are observed; snapshots are sound; `activeFrozen` is at least the number of frozen elements |
| Booster.RunObserver | google-ai-studio-booster.user.js:50-80 | scans never touch the observer state: after any run it equals one batch of all delivered entries in order |
| Booster.RunKeepsSound | google-ai-studio-booster.user.js:49-160 | the facts listed for `StepKeepsSound` hold after every run whose batches report only observed elements |
| Booster.AlternatingRunIsExact | google-ai-studio-booster.user.js:49-72 | from startup, with entries alternating per element, `activeFrozen` equals the number of frozen elements and lies between 0 and `observedCount` |
| Booster.ActiveFrozenNeverNegative | google-ai-studio-booster.user.js:49-72 | from startup, whatever is delivered, `activeFrozen` is at least the number of frozen elements, hence never negative |
| Booster.CountersBounded | google-ai-studio-booster.user.js:149-154 | when `activeFrozen` equals the number of frozen elements, it lies between 0 and `observedCount` |
| Booster.DriftExceedsObserved | google-ai-studio-booster.user.js:62-72 | without alternation, `activeFrozen` can exceed `observedCount`: one observed element frozen twice gives 2 against 1 |

## Left out

- The status display (`updateHUD`) and the injected stylesheet are presentation only. "Frozen" is a boolean flag, not the `content-visibility`/`contain` rules.
- Intersection geometry is browser-internal and is not modelled. This covers the observer's root, its 1500-pixel margin, its threshold and the bounding-box computation. Each entry's `isIntersecting` and rectangle are inputs.
- Pixel values are whole numbers. The `px` strings written to the style are represented by the numbers themselves.
- The start-up delay and the 2-second scan interval are scheduling only. The asynchronous delivery of observer batches is event-loop plumbing. A scan and a batch are each one atomic step.
- The start of the container search (`document.querySelector(...) \|\| document.body`) is an input. So is the locked container's `isConnected`. So are the children of each element at the time of each scan (`LiveChildren`). The host page's own changes to the tree between scans are not modelled as steps; each scan simply sees the page as it then is.
- The WeakSet's garbage-collection behaviour is not modelled. The presence set is a finite set of element ids.
- Booster.AlternatingRunIsExact: proves exactness only for runs whose delivered entries alternate per element. The freeze branch has no "already frozen" check, so the unconditional statement is false (see Booster.DriftExceedsObserved). The browser's observer delivers one initial entry per observed element, then one per change of its intersection state, so an element's entries alternate.
