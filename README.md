# impress.js ASQ adapter: the navigation engine in Dafny

This project models the navigation core of `browser/impressAsqAdapter.js`.
That file is the adapter that lets ASQ drive impress.js presentations and
mirror them live. The adapter keeps two pieces of closure state:
- `activeStep`, the id of the step on show;
- `allSubsteps`, a map from each step id to its substep slots and its active
  substep position.

The model covers:

- **Registry build.** The step ids come from the `.step` elements in document
  order, and a step without an id gets `"step-" + (idx + 1)`. Each step gets
  an `allSubsteps` entry starting at position -1. `getSubSteps` groups a
  step's `.substep` elements into slots by their `data-order`.
- **Target resolution.** `getStep` resolves an index (negative ones count
  from the end) or an id to a step id, or to null.
- **Emitting transitions.** `goto`, `next` and `prev` each either reject,
  only re-render, commit, or throw. A commit is sent once through
  `asqSocket.emitGoto`.
- **The silent replica path.** `onAsqSocketGoto` applies a remote event and
  then runs `getNext` `offset` times without emitting. The one exception is
  the first event that finds impress.js on the page but unpatched: it runs
  `patchImpress`, and that function's start-up `goto` may move the replica
  and emit.
- **Start-up and patching.** This covers the standalone start-up `goto` and
  `patchImpress`, with its own start-up `goto`. A re-render through the host
  throws until impress.js is patched.

The model is split into five files:

- `values.dfy` spells out the JavaScript coercions the adapter relies on:
  `isNaN`, truthiness, `x || y`, and `null` used as an object key.
- `substeps.dfy` holds `getSubSteps`: its specification functions, the
  two-pass method, and the layout and element-preservation lemmas.
- `navigation.dfy` gives each operation as a pure transition over a snapshot
  `Nav(activeStep, all)`, and proves the frame, no-op, commit and replica
  properties.
- `cycle.dfy` ranks the (step, position) pairs of a well-formed presentation.
  It proves that `next` adds one to the rank and `prev` subtracts one, both
  circularly. From this it derives:
  - the period of `next`;
  - `prev` undoing `next`, and the reverse.
- `adapter.dfy` holds the class `Adapter`, whose fields are the closure
  variables.
  - Its methods follow the source step by step and are proved to reach the
    states the transitions describe.
  - The field `impressPatched` says whether the host can redraw.
  - Ghost logs record every call to the outside: `emitGoto` payloads, host
    `gotoOrig` calls, and the dispatched `impress-adapter:onGoto` events. So
    the contracts can state exactly what is emitted and when.

### JavaScript semantics made explicit

- **Substep indices.** A substep index is `Undefined`, `Null`, `NaN` or
  `Num(n)`.
- **Storing an index.** `(!isNaN(x)) ? x : -1` keeps `null` and turns
  `undefined` and `NaN` into -1 (`Values.Stored`). So `goto(x, null)` stores a
  null position, and the start-up `goto(first, null, 0)` does so too. `next`
  reads a null position as -1; `prev` treats it as "no substep engaged".
- **Falsy values.** `!subIdx` is true for undefined, null, NaN and 0. The
  resize check in `goto` therefore also fires for a NaN index.
- **Missing keys.** Reading `allSubsteps[x]` for a key the map lacks throws a
  TypeError. The model returns the outcome `Fault` (or `Faulted` on the
  replica path), together with the state the source had reached when it threw.
  A null `activeStep` indexes the key `"null"`.
- **Order keys.** `Number(el.dataset.order)` is an integer, NaN, or a
  non-integer. Only integers from 0 to 2^32 - 2 are array indices. Any other
  number becomes a plain property that `order.filter(Boolean)` never visits,
  so that element is dropped.

## Model

| member | source | states |
|---|---|---|
| Values.Stored | browser/impressAsqAdapter.js:224-226 | The stored position is null or a number. It differs from the given index only when that index is undefined or NaN, and then it is -1. |
| Values.IsNaN | browser/impressAsqAdapter.js:212 | `isNaN` is never true of null (it converts to 0) or of a number. |
| Values.NoIndex | browser/impressAsqAdapter.js:212 | The "no index given" test `subIdx === null \|\| subIdx === undefined \|\| isNaN(subIdx)` holds exactly for null and for what `isNaN` accepts. |
| Values.Falsy | browser/impressAsqAdapter.js:218 | `!subIdx` holds exactly when no index was given or the index is 0. |
| Values.Effective | browser/impressAsqAdapter.js:261-263 | `next` reads a numeric position as itself, and undefined, null or NaN as -1. |
| Values.KeyOf | browser/impressAsqAdapter.js:138 | A step id indexes `allSubsteps` under itself. A null `activeStep` indexes the key `"null"`. |
| Values.KeyOfCollision | browser/impressAsqAdapter.js:138 | Two ids index the same entry exactly when they are equal, or when one is null and the other is the id `"null"`. |
| Values.OrElse | browser/impressAsqAdapter.js:223 | `id \|\| activeStep` is one of its two operands. It is the first operand exactly when that is a non-empty string, and otherwise the fallback. |
| Values.NatToString | browser/impressAsqAdapter.js:67 | The decimal form of a number has at least one digit, and at least two from 10 on. |
| Values.NatToStringInjective | browser/impressAsqAdapter.js:67 | Distinct numbers print differently, so two generated `"step-" + (idx + 1)` names never coincide. |
| Values.FragmentId | browser/impressAsqAdapter.js:296-300 | The id is what is left of the hash after exactly one leading `#/` or `#` is removed. A hash without a leading `#` is returned whole. |
| Values.FragmentRoundTrip | browser/impressAsqAdapter.js:302-304 | Reading back the fragment `"#/" + id` that entering a step writes gives `id`. The short form `"#" + id` gives `id` too, unless `id` starts with `/`. |
| Substeps.SlotKeys | browser/impressAsqAdapter.js:169-176 | The occupied indices of `order` below a bound are strictly ascending. They are exactly the indices some element was grouped at. |
| Substeps.OrderIndex | browser/impressAsqAdapter.js:167-171 | An element is filed into `order` at index k exactly when its order is the integer k, with 0 <= k <= 2^32 - 2. |
| Substeps.IsUnordered | browser/impressAsqAdapter.js:166-181 | An element without a dataset or with a NaN order goes to `unordered` and is never filed by index. An element that is neither filed nor unordered has a numeric order. |
| Substeps.CompactSlots | browser/impressAsqAdapter.js:184 | `order.filter(Boolean)` yields one slot per occupied index, in index order. Each slot is the group at that index. |
| Substeps.ExtendByOne | browser/impressAsqAdapter.js:165-183 | Reading one more element adds it to the group at its index, or appends it to `unordered`, or drops it. `order.length` grows to cover its index. |
| Substeps.GetSubSteps | browser/impressAsqAdapter.js:162-185 | The two passes (filling `order`/`unordered`, then skipping holes) return exactly the slots SubSteps specifies. |
| Substeps.GroupOccupied | browser/impressAsqAdapter.js:169-176 | An index's group is non-empty exactly when some element's order is that index. |
| Substeps.BoundCovers | browser/impressAsqAdapter.js:170-176 | Every index written lies below `order.length`. |
| Substeps.SubStepsLayout | browser/impressAsqAdapter.js:162-185 | The result lists the distinct indices in ascending order, one slot each, holding every element with that index in document order. The unordered elements follow, one slot each, in document order. The length is the number of distinct indices plus the number of unordered elements. |
| Substeps.CompactKeepsOrdered | browser/impressAsqAdapter.js:184 | The compacted slots together hold exactly the elements ordered by an index, each once. |
| Substeps.KeptSplits | browser/impressAsqAdapter.js:165-183 | Every kept element is either ordered by an index or unordered. The rest (a numeric order that is not an index) are dropped. |
| Substeps.SubStepsKeepsElements | browser/impressAsqAdapter.js:162-185 | No substep is lost or duplicated. The slots hold exactly the kept elements, and only a numeric non-index order drops an element. |
| Navigation.IndexOf | browser/impressAsqAdapter.js:247 | `steps.indexOf(a)` is -1 exactly when `a` is null or absent. Otherwise it is the first position holding `a`. |
| Navigation.GetStep | browser/impressAsqAdapter.js:192-201 | A resolved step is always a non-empty id in `steps` (see GetStepUnknown and GetStepByIndex for the null cases). |
| Navigation.GotoTransition | browser/impressAsqAdapter.js:206-231 | `goto` keeps the set of steps. Anything short of a commit leaves the state as it was. A commit's outcome names the new active step and the position stored for it. |
| Navigation.NextStepId | browser/impressAsqAdapter.js:268-269 | The circularly next step is a step. |
| Navigation.PrevStepId | browser/impressAsqAdapter.js:247-248 | The circularly previous step is a step. |
| Navigation.SubstepsAhead | browser/impressAsqAdapter.js:260 | When the stored position is null or in range, "substeps left" means the next position is an existing substep. Otherwise the step has no substeps or sits on its last one. |
| Navigation.NextCall | browser/impressAsqAdapter.js:259-271 | `next()` stays in the step exactly when substeps are left, revealing an existing substep. Otherwise it names a step at -1. |
| Navigation.PrevCall | browser/impressAsqAdapter.js:238-251 | `prev()` stays in the step exactly when a substep is engaged, moving one position down. Otherwise it names a step at that step's last substep. |
| Navigation.NextTransition | browser/impressAsqAdapter.js:254-272 | `next()` keeps the set of steps. |
| Navigation.PrevTransition | browser/impressAsqAdapter.js:233-252 | `prev()` keeps the set of steps. |
| Navigation.GetNext | browser/impressAsqAdapter.js:274-292 | `getNext()` always returns a numeric index. When it names a step, the step exists and the index is -1. |
| Navigation.SilentNext | browser/impressAsqAdapter.js:144-148 | A replica round keeps the set of steps and leaves the active step with an entry. |
| Navigation.Replay | browser/impressAsqAdapter.js:142-149 | Any number of replica rounds keeps the state readable without a TypeError. |
| Navigation.BaselineStep | browser/impressAsqAdapter.js:137 | `data.step \|\| activeStep`: the event's step when it names a non-empty one, otherwise the current step. |
| Navigation.Baseline | browser/impressAsqAdapter.js:137-140 | The event applied as it stands shows the baseline step at the event's stored index, and changes no other slot. |
| Navigation.Replicate | browser/impressAsqAdapter.js:131-149 | `onAsqSocketGoto` keeps the registry. An applied event leaves a readable state. An ignored or faulting event leaves every slot untouched. |
| Navigation.IterNext | browser/impressAsqAdapter.js:254-272 | Repeated `next()` keeps the set of steps. |
| Navigation.GetStepByIndex | browser/impressAsqAdapter.js:193-194 | An index n and n - len resolve to the same step, and so does that step's id. An index outside -len..len-1 resolves to null. |
| Navigation.GetStepNameIndex | browser/impressAsqAdapter.js:195-196 | A step id resolves to itself (null when empty), and to the same step as its position. |
| Navigation.GetStepUnknown | browser/impressAsqAdapter.js:195-196 | An id that is not a step, or the empty id, resolves to null. So `goto` given only that id is rejected and changes nothing. |
| Navigation.GotoNoOp | browser/impressAsqAdapter.js:209-220 | `goto` returns null and changes nothing when the target does not resolve and the index is undefined, null or NaN. It only re-renders, changing nothing, when the target is the active step and the index is falsy. |
| Navigation.GotoCommit | browser/impressAsqAdapter.js:222-230 | On commit the active step becomes the resolved target, or stays when only the index was usable. This holds from the unstarted state too. Its slot takes the stored index, and the outcome carries that pair. Nothing else changes. |
| Navigation.GotoFrame | browser/impressAsqAdapter.js:222-226 | `goto` changes at most the `active` slot of the step it leaves active, and no step's substeps. |
| Navigation.NextFrame | browser/impressAsqAdapter.js:254-272 | `next()` changes at most the `active` slot of the step it leaves active. |
| Navigation.PrevFrame | browser/impressAsqAdapter.js:233-252 | `prev()` changes at most the `active` slot of the step it leaves active. |
| Navigation.SilentFrame | browser/impressAsqAdapter.js:144-148 | A replica round changes at most the `active` slot of the step it leaves active. |
| Navigation.GotoIdempotent | browser/impressAsqAdapter.js:206-231 | Repeating the same `goto` leaves the state it produced. |
| Navigation.SilentMatchesNext | browser/impressAsqAdapter.js:274-292 | Once a step is active, a round of `getNext` applied silently reaches exactly the state `next()` commits. `next()` always commits there. |
| Navigation.ReplayIsIteratedNext | browser/impressAsqAdapter.js:142-149 | `offset` silent rounds reach the state `offset` calls of `next()` reach. |
| Navigation.ReplicaOffsetZero | browser/impressAsqAdapter.js:137-140 | With offset 0 the replica shows the event's step (or the current one when the event names none) and the event's index (-1 when undefined or NaN). It changes nothing else. |
| Navigation.ReplicaRunsAhead | browser/impressAsqAdapter.js:142-149 | With offset k the replica is where k calls of `next()` take the offset-0 replica. |
| Navigation.ReplicaIgnoresNull | browser/impressAsqAdapter.js:132-135 | A null or undefined event changes nothing. |
| NavigationCycle.RankInjective | browser/impressAsqAdapter.js:233-272 | On well-formed states, two states have the same rank exactly when they show the same step at the same position. |
| NavigationCycle.NextInStep | browser/impressAsqAdapter.js:260-265 | With substeps left, `next()` commits the next substep of the same step: one rank on. |
| NavigationCycle.NextToStep | browser/impressAsqAdapter.js:267-271 | On a step's last position, `next()` commits the following step at -1, wrapping from the last step to the first, even when that step has substeps. |
| NavigationCycle.NextRank | browser/impressAsqAdapter.js:254-272 | On a well-formed state `next()` always commits, keeps the state well-formed, stores a numeric position, and moves one rank on, circularly. |
| NavigationCycle.PrevInStep | browser/impressAsqAdapter.js:239-243 | With a substep engaged (position 0 or more), `prev()` commits the position one lower, down to -1. |
| NavigationCycle.PrevToStep | browser/impressAsqAdapter.js:246-251 | At position -1 or null, `prev()` commits the circularly previous step at its last substep, wrapping from the first step to the last. The one exception is a lone step holding exactly one substep. |
| NavigationCycle.PrevRank | browser/impressAsqAdapter.js:233-252 | Except for a lone step with exactly one substep, `prev()` on a well-formed state always commits, keeps it well-formed, and moves one rank back, circularly. |
| NavigationCycle.IterNextRank | browser/impressAsqAdapter.js:254-272 | k calls of `next()`, up to a full round, move k ranks on and wrap once at the end. |
| NavigationCycle.IterNextWellFormed | browser/impressAsqAdapter.js:254-272 | Any number of calls of `next()` keeps a well-formed state well-formed, with the same step sizes. |
| NavigationCycle.IterNextNumeric | browser/impressAsqAdapter.js:261-264 | After any number of calls of `next()`, at least one, the state is well-formed and the active position is stored as a number. |
| NavigationCycle.NextPeriod | browser/impressAsqAdapter.js:254-272 | Within a full round, k calls of `next()` return to the starting step and position exactly when k is the sum over the steps of (substep count + 1). |
| NavigationCycle.NextCycle | browser/impressAsqAdapter.js:254-272 | That many calls of `next()` bring back the starting step at the starting position. |
| NavigationCycle.ReplayCycle | browser/impressAsqAdapter.js:142-149 | A replica running ahead by a full round of positions shows the state it started from. |
| NavigationCycle.PrevAfterNext | browser/impressAsqAdapter.js:233-272 | Except for a lone step with exactly one substep, `prev()` right after `next()` restores the step and the position. |
| NavigationCycle.NextAfterPrev | browser/impressAsqAdapter.js:233-272 | Except for a lone step with exactly one substep, `next()` right after `prev()` restores the step and the position. |
| NavigationCycle.PrevStallsOnOneStep | browser/impressAsqAdapter.js:218-220 | With one step holding exactly one substep, `prev()` from -1 calls `goto(step, 0)`, which the resize check only re-renders. The following `next()` reaches position 0, not -1. This is the case the `prev` lemmas exclude. |
| AsqAdapter.StepName | browser/impressAsqAdapter.js:66-68 | A step keeps a non-empty id. A step without one is named `"step-" + (idx + 1)`, which is never empty. |
| AsqAdapter.GeneratedNamesDistinct | browser/impressAsqAdapter.js:66-68 | Two steps without an id get different generated names. |
| AsqAdapter.Names | browser/impressAsqAdapter.js:64-76 | The step list has one id per `.step` element. |
| AsqAdapter.BuildRegistry | browser/impressAsqAdapter.js:60-76 | The loop yields the ids in document order (`Names`). It writes each step's entry (`Entries`), in the same order. |
| AsqAdapter.BuiltKeys | browser/impressAsqAdapter.js:64-76 | The built `allSubsteps` has an entry for exactly the listed steps. |
| AsqAdapter.BuiltInactive | browser/impressAsqAdapter.js:73 | Every entry starts at position -1. |
| AsqAdapter.BuiltSubsteps | browser/impressAsqAdapter.js:71-72 | A step's entry holds the substep slots of the last element with its id. |
| AsqAdapter.Adapter.FromTree | browser/impressAsqAdapter.js:56-58 | A prebuilt slide tree is taken as it is, with no step active and nothing emitted. |
| AsqAdapter.Adapter.FromDom | browser/impressAsqAdapter.js:59-77 | Building from the document gives the ids and entries above, with no step active and nothing emitted. |
| AsqAdapter.Adapter.Goto | browser/impressAsqAdapter.js:206-231 | `goto` leaves the state GotoTransition describes. A commit emits exactly one payload carrying the committed pair and the duration. A re-render calls the host once, or throws (nothing logged) while impress.js is unpatched. The frame keeps the patch flag and the dispatched events. |
| AsqAdapter.Adapter.Next | browser/impressAsqAdapter.js:254-272 | `next()` leaves the state NextTransition describes. It emits exactly when it commits, and it throws on a re-render with no host to redraw. |
| AsqAdapter.Adapter.Prev | browser/impressAsqAdapter.js:233-252 | `prev()` leaves the state PrevTransition describes. It emits exactly when it commits, and it throws on a re-render with no host to redraw (the one-step stall without impress.js). |
| AsqAdapter.Adapter.SilentRound | browser/impressAsqAdapter.js:144-148 | One loop round applies `getNext()` directly and reaches SilentNext. Its frame (only `activeStep` and `allSubsteps`) rules out emission, rendering and dispatch. |
| AsqAdapter.Adapter.RunAhead | browser/impressAsqAdapter.js:142-149 | `while (times-- > 0)` runs `max(offset, 0)` silent rounds (Replay). Its frame rules out any emission. |
| AsqAdapter.Adapter.OnAsqSocketGoto | browser/impressAsqAdapter.js:131-159 | `onAsqSocketGoto` reaches the outcome and state Replicate describes, and emits nothing, unless the host is present but unpatched. In that case it is patched, and the state and emissions are those of the patch's start-up `goto` from the replica. An applied event is drawn by a present host at the resulting pair and re-dispatched as a DOM event. |
| AsqAdapter.Adapter.Start | browser/impressAsqAdapter.js:79-85 | Standalone start-up is `goto(first, null, 0)`: the GotoTransition state, its commit emitted with duration 0, its re-render redrawn or thrown. Otherwise it is `patchImpress()`. |
| AsqAdapter.Adapter.PatchImpress | browser/impressAsqAdapter.js:92-129 | `patchImpress` does nothing when already patched or when impress.js is absent. Otherwise it marks the host patched and runs the start-up `goto` (PatchedStart), emitting on commit and redrawing on re-render. |
| AsqAdapter.Rounds | browser/impressAsqAdapter.js:142-143 | The loop `while (times-- > 0)`, counted round by round, runs `times` rounds when positive and none otherwise. |
| AsqAdapter.HostOutcome | browser/impressAsqAdapter.js:218-219 | The host changes a `goto` result only before patching, and only by turning a re-render into a thrown error. |
| AsqAdapter.PatchedStart | browser/impressAsqAdapter.js:128 | `goto(getElementFromHash() \|\| steps[0], null, 0)` never throws. It either commits a step with a null position or leaves the state alone. |
| AsqAdapter.StartTarget | browser/impressAsqAdapter.js:83 | The step the fragment names wins both here and in `patchImpress` (line 128). Standalone, the start target always resolves when the first step is named. Only an empty presentation gives no target. |
| AsqAdapter.StartShowsAStep | browser/impressAsqAdapter.js:83-84 | A standalone start over a named first step always resolves a step. It either commits that step with a null position or, when that step is already active, only re-renders it. |

## Left out

- The replacement of `window.impress` and the `roots` cache inside
  `patchImpress` (browser/impressAsqAdapter.js:103-122) are not modelled. Only
  their effect is: the flag `impressPatched`, after which the host can redraw.
  Registering `patchImpress` for `impress:ready` when impress.js is absent is
  modelled as the host calling `Adapter.PatchImpress` again later.
- Host rendering (`impress().gotoOrig`), `asqSocket.emitGoto` and the
  `CustomEvent` dispatch are recorded in ghost logs, not performed.
  `OnAsqSocketGoto`, `PatchImpress` and `Start` take whether `impress` is
  present as a parameter, and the location hash as a string.
- `getElementFromHash` and `onStepEnter` read and write `window.location`. Only
  the string step is modelled (`FragmentId`, `FragmentRoundTrip`); the hash is a
  parameter of `Start`.
- `onHashChange`, `onKeyDown`, `onKeyUp`, `onClickLink`, `onClickStep`,
  listener wiring and `destroy` are left out. They are DOM event plumbing that
  ends in `goto`, `next` or `prev`.
- The `Element` branch of `getStep` is left out, and so are non-integer numeric
  targets (`steps[1.5]` is undefined). Targets are absent, an integer index, or an id.
- A substep index that is a string or another non-number from a remote event
  is not modelled. Indices are undefined, null, NaN or an integer.
- The payload of a re-render is not modelled: a re-render returns whatever the
  host's `gotoOrig` returns, and its value is not captured.
- Writing the generated id back to the DOM element (`el.id = ...`) is not
  modelled. Only the id the registry records is.
- `debug` logging is left out.
- `offset` is an integer. A fractional offset (`2.5` runs three rounds) is not
  modelled.
- A prebuilt slide tree whose keys differ from its step list is not modelled:
  `Adapter.FromTree` requires that they agree.
- `next()` and `prev()` are modelled as computing the arguments of their one
  `goto` call (`NextCall`, `PrevCall`), then making that call, as the source does.
- The example bundle (`example/js/impressAsqAdapterExample.js`) and
  `Gruntfile.js` are build output and configuration, and are not part of this model.
- NavigationCycle.NextCycle, NavigationCycle.ReplayCycle, NavigationCycle.PrevAfterNext
  and NavigationCycle.NextAfterPrev: these restore the step and the position
  only up to the representation of -1. A null position comes back as the
  number -1, which differs from null only in the emitted payload.
- NavigationCycle.PrevAfterNext, NavigationCycle.NextAfterPrev,
  NavigationCycle.PrevRank and NavigationCycle.PrevToStep: these exclude the
  presentation that is a lone step holding exactly one substep.
  `NavigationCycle.PrevStallsOnOneStep` shows that there `prev()` only
  re-renders, so they fail only there.
- NavigationCycle.NextPeriod and the other cycle lemmas assume a well-formed state:
  - step ids are distinct and non-empty;
  - a step is active;
  - every position is null or between -1 and the step's last substep.

  States outside this (duplicate ids, out-of-range positions from remote
  events) are not covered by the circular-order results.
- Navigation.ReplicaRunsAhead: it assumes the event or the current state names
  a step. The case where neither does and a step is literally called `"null"`
  is not covered.
