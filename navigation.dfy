/**
 * The navigation engine of browser/impressAsqAdapter.js as pure functions
 * over a snapshot of its closure state (`activeStep` and `allSubsteps`):
 * target resolution (`getStep`), the emitting transitions (`goto`, `next`,
 * `prev`), the non-mutating peek (`getNext`) and the silent replica path of
 * `onAsqSocketGoto`. The class in adapter.dfy runs these steps imperatively
 * and is proved to agree with them.
 *
 * Looking up a step that `allSubsteps` lacks throws a TypeError in the
 * source (`allSubsteps[x].active` on undefined); here that is the outcome
 * `Fault`, with the state the source had reached when it threw.
 */
module Navigation {
  import opened Values
  import opened Substeps

  /** `allSubsteps[id]`: a step's substep slots and its active substep position. */
  datatype StepEntry<E> = StepEntry(substeps: seq<Slot<E>>, active: SubIdx)

  /** The closure state the engine reads and writes: `activeStep` and `allSubsteps`. */
  datatype Nav<E> = Nav(activeStep: Option<string>, all: map<string, StepEntry<E>>)

  /** A `goto` target: absent (undefined or null), a step index, or a step id. */
  datatype Target = NoTarget | ByIndex(i: int) | ByName(id: string)

  /** What a call to `goto` (and so to `next` or `prev`) did. */
  datatype Outcome =
    | Rejected                                             // returned null; nothing happened
    | Rerendered(step: Option<string>)                     // only `impress().gotoOrig(activeStep)` was called
    | Committed(step: Option<string>, substepIdx: SubIdx)  // state written, `emitGoto` sent with this pair
    | Fault                                                // threw: no `allSubsteps` entry, or no host to redraw

  datatype Transition<E> = Transition(outcome: Outcome, nav: Nav<E>)

  /** The step list and `allSubsteps` describe the same steps. */
  ghost predicate Registry<E>(steps: seq<string>, all: map<string, StepEntry<E>>)
  {
    forall s :: s in all <==> s in steps
  }

  /** The engine can read the active step's entry without throwing. */
  ghost predicate Ready<E>(steps: seq<string>, nav: Nav<E>)
  {
    Registry(steps, nav.all) && KeyOf(nav.activeStep) in nav.all
  }

  /** `nav2` differs from `nav1` at most in the `active` slot of the entry named `key`. */
  ghost predicate OnlyActiveOf<E>(nav1: Nav<E>, nav2: Nav<E>, key: string)
  {
    nav2.all.Keys == nav1.all.Keys &&
    (forall s :: s in nav1.all ==> nav2.all[s].substeps == nav1.all[s].substeps) &&
    (forall s :: s in nav1.all && s != key ==> nav2.all[s] == nav1.all[s])
  }

  /** `steps.indexOf(a)`: the first position of `a`, or -1 (always -1 for null). */
  function IndexOf(steps: seq<string>, a: Option<string>): (r: int)
    ensures -1 <= r < |steps|
    ensures r == -1 <==> a.None? || a.value !in steps
    ensures 0 <= r ==> steps[r] == a.value && a.value !in steps[..r]
  {
    if a.None? || |steps| == 0 then -1
    else if steps[0] == a.value then 0
    else
      var r := IndexOf(steps[1..], a);
      assert r >= 0 ==> steps[1..][..r] == steps[1..r + 1];
      if r < 0 then -1 else r + 1
  }

  /**
   * `getStep(step)`: an index (negative counts from the end) or an id becomes
   * the step id, or null when out of range, unknown or empty.
   */
  function GetStep(steps: seq<string>, t: Target): (r: Option<string>)
    ensures r.Some? ==> r.value in steps && r.value != ""
  {
    match t
    case NoTarget => None
    case ByIndex(i) =>
      var j := if i < 0 then |steps| + i else i;
      if 0 <= j < |steps| && steps[j] != "" then Some(steps[j]) else None
    case ByName(id) => if id in steps && id != "" then Some(id) else None
  }

  /**
   * `goto(id, subIdx)`: reject when neither the target nor the index is
   * usable; only re-render when the target is the active step and no
   * substep is asked for; otherwise commit the pair and emit it.
   */
  function GotoTransition<E>(steps: seq<string>, nav: Nav<E>, target: Target, subIdx: SubIdx): (t: Transition<E>)
    requires Registry(steps, nav.all)
    ensures t.nav.all.Keys == nav.all.Keys
    ensures !t.outcome.Committed? ==> t.nav == nav
    ensures t.outcome.Committed? ==>
              t.outcome.step == t.nav.activeStep && KeyOf(t.nav.activeStep) in t.nav.all &&
              t.nav.all[KeyOf(t.nav.activeStep)].active == t.outcome.substepIdx
  {
    var id := GetStep(steps, target);
    if id.None? && NoIndex(subIdx) then Transition(Rejected, nav)
    else if nav.activeStep == id && Falsy(subIdx) then Transition(Rerendered(nav.activeStep), nav)
    else
      var a := OrElse(id, nav.activeStep);
      var key := KeyOf(a);
      if key !in nav.all then Transition(Fault, nav)
      else
        var v := Stored(subIdx);
        Transition(Committed(a, v), Nav(a, nav.all[key := nav.all[key].(active := v)]))
  }

  /** The step after `a` in circular order (`steps[indexOf + 1]`, else `steps[0]`). */
  function NextStepId(steps: seq<string>, a: Option<string>): (s: string)
    requires |steps| > 0
    ensures s in steps
  {
    var k := IndexOf(steps, a) + 1;
    if k < |steps| then steps[k] else steps[0]
  }

  /** The step before `a` in circular order (`steps[indexOf - 1]`, else the last step). */
  function PrevStepId(steps: seq<string>, a: Option<string>): (s: string)
    requires |steps| > 0
    ensures s in steps
  {
    var k := IndexOf(steps, a) - 1;
    if k >= 0 then steps[k] else steps[|steps| - 1]
  }

  /** The active step's entry has substeps and is not on the last one. */
  predicate SubstepsAhead<E>(e: StepEntry<E>)
    ensures SubstepsAhead(e) && (e.active.Null? || (e.active.Num? && -1 <= e.active.n < |e.substeps|)) ==>
              0 <= Effective(e.active) + 1 < |e.substeps|
    ensures !SubstepsAhead(e) ==> |e.substeps| == 0 || e.active == Num(|e.substeps| - 1)
  {
    |e.substeps| > 0 && e.active != Num(|e.substeps| - 1)
  }

  /** The arguments of the one `goto` call that `next()` and `prev()` end in. */
  datatype Call = Call(target: Target, subIdx: SubIdx)

  /**
   * The `goto` call of `next()`: reveal the next substep of the active step
   * if it has one left (a null or NaN position counts as -1), else enter the
   * circularly next step with no substep revealed.
   */
  function NextCall<E>(steps: seq<string>, a: Option<string>, e: StepEntry<E>): (c: Call)
    requires |steps| > 0
    ensures c.target.NoTarget? <==> SubstepsAhead(e)
    ensures c.target.NoTarget? && (e.active.Null? || (e.active.Num? && -1 <= e.active.n < |e.substeps|)) ==>
              c.subIdx.Num? && 0 <= c.subIdx.n < |e.substeps|
    ensures !c.target.NoTarget? ==> c.target.ByName? && c.target.id in steps && c.subIdx == Num(-1)
  {
    if SubstepsAhead(e) then Call(NoTarget, Num(Effective(e.active) + 1))
    else Call(ByName(NextStepId(steps, a)), Num(-1))
  }

  /** `next()`: the active step's entry must exist; then its `goto` call. */
  function NextTransition<E>(steps: seq<string>, nav: Nav<E>): (t: Transition<E>)
    requires Registry(steps, nav.all)
    ensures t.nav.all.Keys == nav.all.Keys
  {
    var key := KeyOf(nav.activeStep);
    if key !in nav.all then Transition(Fault, nav)
    else
      var c := NextCall(steps, nav.activeStep, nav.all[key]);
      GotoTransition(steps, nav, c.target, c.subIdx)
  }

  /**
   * The `goto` call of `prev()`: while a substep is engaged (position 0 or
   * more) step back one substep, down to -1; otherwise go to the circularly
   * previous step with its last substep revealed.
   */
  function PrevCall<E>(steps: seq<string>, nav: Nav<E>): (c: Call)
    requires Registry(steps, nav.all) && KeyOf(nav.activeStep) in nav.all
    ensures var e := nav.all[KeyOf(nav.activeStep)];
            c.target.NoTarget? <==> |e.substeps| > 0 && e.active.Num? && e.active.n >= 0
    ensures c.target.NoTarget? ==> c.subIdx == Num(nav.all[KeyOf(nav.activeStep)].active.n - 1)
    ensures !c.target.NoTarget? ==>
              c.target.ByName? && c.target.id in nav.all && c.subIdx == Num(|nav.all[c.target.id].substeps| - 1)
  {
    var e := nav.all[KeyOf(nav.activeStep)];
    if |e.substeps| > 0 && e.active.Num? && e.active.n >= 0 then Call(NoTarget, Num(e.active.n - 1))
    else
      var p := PrevStepId(steps, nav.activeStep);
      Call(ByName(p), Num(|nav.all[p].substeps| - 1))
  }

  /** `prev()`: the active step's entry must exist; then its `goto` call. */
  function PrevTransition<E>(steps: seq<string>, nav: Nav<E>): (t: Transition<E>)
    requires Registry(steps, nav.all)
    ensures t.nav.all.Keys == nav.all.Keys
  {
    if KeyOf(nav.activeStep) !in nav.all then Transition(Fault, nav)
    else
      var c := PrevCall(steps, nav);
      GotoTransition(steps, nav, c.target, c.subIdx)
  }

  /** What `getNext()` returns: `{step, substepIdx}`, where a null step means "stay". */
  datatype Peek = Peek(step: Option<string>, substepIdx: SubIdx)

  /** `getNext()`: the decision `next()` would take, computed without writing or emitting. */
  function GetNext<E>(steps: seq<string>, nav: Nav<E>): (p: Peek)
    requires Ready(steps, nav)
    ensures p.substepIdx.Num?
    ensures p.step.Some? ==> p.step.value in steps && p.substepIdx == Num(-1)
  {
    var e := nav.all[KeyOf(nav.activeStep)];
    if SubstepsAhead(e) then Peek(None, Num(Effective(e.active) + 1))
    else Peek(Some(NextStepId(steps, nav.activeStep)), Num(-1))
  }

  /**
   * One round of the replica loop: `activeStep = nextState.step || activeStep`,
   * then the active step's slot takes `nextState.substepIdx`.
   */
  function SilentNext<E>(steps: seq<string>, nav: Nav<E>): (r: Nav<E>)
    requires Ready(steps, nav)
    ensures r.all.Keys == nav.all.Keys && KeyOf(r.activeStep) in r.all
  {
    var p := GetNext(steps, nav);
    var a := OrElse(p.step, nav.activeStep);
    var key := KeyOf(a);
    Nav(a, nav.all[key := nav.all[key].(active := Stored(p.substepIdx))])
  }

  /** The replica loop run `times` times. */
  function Replay<E>(steps: seq<string>, nav: Nav<E>, times: nat): (r: Nav<E>)
    requires Ready(steps, nav)
    ensures Ready(steps, r)
  {
    if times == 0 then nav else SilentNext(steps, Replay(steps, nav, times - 1))
  }

  /** An inbound `goto` event `{step, substepIdx, duration}`. */
  datatype RemoteEvent = RemoteEvent(step: Option<string>, substepIdx: SubIdx, duration: Duration)

  /** What `onAsqSocketGoto` did: dropped a null event, threw on an unknown step, or applied it. */
  datatype ReplicaOutcome = Ignored | Faulted | Applied

  datatype Replica<E> = Replica(outcome: ReplicaOutcome, nav: Nav<E>)

  /** The step the event names, or the current one (`data.step || activeStep`). */
  function BaselineStep<E>(nav: Nav<E>, ev: RemoteEvent): (a: Option<string>)
    ensures ev.step.Some? && ev.step.value != "" ==> a == ev.step
    ensures !(ev.step.Some? && ev.step.value != "") ==> a == nav.activeStep
  {
    OrElse(ev.step, nav.activeStep)
  }

  /** The event applied as it stands, before any look-ahead. */
  function Baseline<E>(nav: Nav<E>, ev: RemoteEvent): (r: Nav<E>)
    requires KeyOf(BaselineStep(nav, ev)) in nav.all
    ensures r.activeStep == BaselineStep(nav, ev)
    ensures KeyOf(r.activeStep) in r.all && r.all[KeyOf(r.activeStep)].active == Stored(ev.substepIdx)
    ensures OnlyActiveOf(nav, r, KeyOf(r.activeStep))
  {
    var key := KeyOf(BaselineStep(nav, ev));
    Nav(BaselineStep(nav, ev), nav.all[key := nav.all[key].(active := Stored(ev.substepIdx))])
  }

  /**
   * `onAsqSocketGoto(data)`: ignore a null or undefined event; otherwise set
   * the baseline and advance `offset` times with the peek, never emitting.
   */
  function Replicate<E>(steps: seq<string>, nav: Nav<E>, data: Option<RemoteEvent>, offset: nat): (r: Replica<E>)
    requires Registry(steps, nav.all)
    ensures Registry(steps, r.nav.all)
    ensures r.outcome.Applied? ==> Ready(steps, r.nav)
    ensures !r.outcome.Applied? ==> r.nav.all == nav.all
  {
    match data
    case None => Replica(Ignored, nav)
    case Some(ev) =>
      var a := BaselineStep(nav, ev);
      if KeyOf(a) !in nav.all then Replica(Faulted, Nav(a, nav.all))
      else Replica(Applied, Replay(steps, Baseline(nav, ev), offset))
  }

  /** `next()` applied `times` times, through `goto` and its emission. */
  function IterNext<E>(steps: seq<string>, nav: Nav<E>, times: nat): (r: Nav<E>)
    requires Registry(steps, nav.all)
    ensures r.all.Keys == nav.all.Keys
  {
    if times == 0 then nav else NextTransition(steps, IterNext(steps, nav, times - 1)).nav
  }

  // ---------------------------------------------------------------------
  // Target resolution
  // ---------------------------------------------------------------------

  /**
   * An index and the index counted from the end name the same step, and
   * both agree with the step's id; any other index names nothing.
   */
  lemma GetStepByIndex(steps: seq<string>, i: int)
    ensures 0 <= i < |steps| && steps[i] != "" ==>
              GetStep(steps, ByIndex(i)) == GetStep(steps, ByIndex(i - |steps|)) == Some(steps[i])
                == GetStep(steps, ByName(steps[i]))
    ensures !(-|steps| <= i < |steps|) ==> GetStep(steps, ByIndex(i)) == None
  {
  }

  /** Resolving an id and resolving its position give the same step. */
  lemma GetStepNameIndex(steps: seq<string>, id: string)
    requires id in steps
    ensures GetStep(steps, ByIndex(IndexOf(steps, Some(id)))) == GetStep(steps, ByName(id))
    ensures id == "" ==> GetStep(steps, ByName(id)) == None
    ensures id != "" ==> GetStep(steps, ByName(id)) == Some(id)
  {
  }

  /**
   * An id that is not a step, or the empty id, resolves to null, so `goto`
   * given only that id is rejected and changes nothing.
   */
  lemma GetStepUnknown<E>(steps: seq<string>, nav: Nav<E>, id: string)
    requires Registry(steps, nav.all)
    requires id !in steps || id == ""
    ensures GetStep(steps, ByName(id)) == None
    ensures GotoTransition(steps, nav, ByName(id), Undefined) == Transition(Rejected, nav)
  {
  }

  // ---------------------------------------------------------------------
  // goto
  // ---------------------------------------------------------------------

  /**
   * The two ways `goto` leaves everything as it was and emits nothing: an
   * unusable target without an index is rejected, and the active step with
   * a falsy index (undefined, null, NaN or 0) is only re-rendered.
   */
  lemma GotoNoOp<E>(steps: seq<string>, nav: Nav<E>, target: Target, subIdx: SubIdx)
    requires Registry(steps, nav.all)
    ensures GetStep(steps, target).None? && NoIndex(subIdx) ==>
              GotoTransition(steps, nav, target, subIdx) == Transition(Rejected, nav)
    ensures !(GetStep(steps, target).None? && NoIndex(subIdx)) &&
            nav.activeStep == GetStep(steps, target) && Falsy(subIdx) ==>
              GotoTransition(steps, nav, target, subIdx) == Transition(Rerendered(nav.activeStep), nav)
  {
  }

  /**
   * When `goto` commits, the active step becomes the resolved target (or
   * stays, if only an index was usable), its slot takes the index (-1 for
   * undefined or NaN, null kept), and the emitted pair is the committed one.
   */
  lemma GotoCommit<E>(steps: seq<string>, nav: Nav<E>, target: Target, subIdx: SubIdx)
    requires Registry(steps, nav.all)
    requires GetStep(steps, target).Some? || (subIdx.Num? && KeyOf(nav.activeStep) in nav.all)
    requires !(nav.activeStep == GetStep(steps, target) && Falsy(subIdx))
    ensures var t := GotoTransition(steps, nav, target, subIdx);
            var a := if GetStep(steps, target).Some? then GetStep(steps, target) else nav.activeStep;
            t.outcome == Committed(a, Stored(subIdx)) &&
            t.nav.activeStep == a &&
            t.nav.all[KeyOf(a)].active == Stored(subIdx) &&
            OnlyActiveOf(nav, t.nav, KeyOf(a))
  {
  }

  /** `goto` changes at most the `active` slot of the step it leaves active; no step's substeps change. */
  lemma GotoFrame<E>(steps: seq<string>, nav: Nav<E>, target: Target, subIdx: SubIdx)
    requires Registry(steps, nav.all)
    ensures var t := GotoTransition(steps, nav, target, subIdx);
            OnlyActiveOf(nav, t.nav, KeyOf(t.nav.activeStep))
  {
  }

  /** `next()` changes at most the `active` slot of the step it leaves active. */
  lemma NextFrame<E>(steps: seq<string>, nav: Nav<E>)
    requires Registry(steps, nav.all)
    ensures var t := NextTransition(steps, nav);
            OnlyActiveOf(nav, t.nav, KeyOf(t.nav.activeStep))
  {
    var key := KeyOf(nav.activeStep);
    if key in nav.all {
      var c := NextCall(steps, nav.activeStep, nav.all[key]);
      GotoFrame(steps, nav, c.target, c.subIdx);
    }
  }

  /** `prev()` changes at most the `active` slot of the step it leaves active. */
  lemma PrevFrame<E>(steps: seq<string>, nav: Nav<E>)
    requires Registry(steps, nav.all)
    ensures var t := PrevTransition(steps, nav);
            OnlyActiveOf(nav, t.nav, KeyOf(t.nav.activeStep))
  {
    if KeyOf(nav.activeStep) in nav.all {
      var c := PrevCall(steps, nav);
      GotoFrame(steps, nav, c.target, c.subIdx);
    }
  }

  /** A round of the replica loop changes at most the `active` slot of the step it leaves active. */
  lemma SilentFrame<E>(steps: seq<string>, nav: Nav<E>)
    requires Ready(steps, nav)
    ensures var r := SilentNext(steps, nav);
            OnlyActiveOf(nav, r, KeyOf(r.activeStep))
  {
  }

  /** Repeating a `goto` changes nothing more: the second call re-renders or commits the same state. */
  lemma GotoIdempotent<E>(steps: seq<string>, nav: Nav<E>, target: Target, subIdx: SubIdx)
    requires Registry(steps, nav.all)
    ensures var once := GotoTransition(steps, nav, target, subIdx).nav;
            GotoTransition(steps, once, target, subIdx).nav == once
  {
  }

  // ---------------------------------------------------------------------
  // The silent path agrees with the emitting one
  // ---------------------------------------------------------------------

  /**
   * Once a step is active, the replica loop's round (`getNext` applied
   * directly) reaches exactly the state `next()` commits, and `next()`
   * does commit (and so emit) it.
   */
  lemma SilentMatchesNext<E>(steps: seq<string>, nav: Nav<E>)
    requires Ready(steps, nav) && nav.activeStep.Some?
    ensures NextTransition(steps, nav).outcome.Committed?
    ensures NextTransition(steps, nav).nav == SilentNext(steps, nav)
    ensures SilentNext(steps, nav).activeStep.Some?
  {
  }

  /** The silent replay of `times` rounds equals calling `next()` `times` times. */
  lemma {:induction false} ReplayIsIteratedNext<E>(steps: seq<string>, nav: Nav<E>, times: nat)
    requires Ready(steps, nav) && nav.activeStep.Some?
    ensures Replay(steps, nav, times) == IterNext(steps, nav, times)
    ensures Replay(steps, nav, times).activeStep.Some?
  {
    if times > 0 {
      ReplayIsIteratedNext(steps, nav, times - 1);
      SilentMatchesNext(steps, Replay(steps, nav, times - 1));
    }
  }

  // ---------------------------------------------------------------------
  // onAsqSocketGoto
  // ---------------------------------------------------------------------

  /**
   * A replica with offset 0 shows exactly the event's pair (its step, or the
   * current one when it names none; its index, or -1 when undefined or NaN).
   */
  lemma ReplicaOffsetZero<E>(steps: seq<string>, nav: Nav<E>, ev: RemoteEvent)
    requires Registry(steps, nav.all)
    requires KeyOf(BaselineStep(nav, ev)) in nav.all
    ensures var r := Replicate(steps, nav, Some(ev), 0);
            r.outcome == Applied &&
            r.nav.activeStep == BaselineStep(nav, ev) &&
            r.nav.all[KeyOf(r.nav.activeStep)].active == Stored(ev.substepIdx) &&
            OnlyActiveOf(nav, r.nav, KeyOf(r.nav.activeStep))
  {
  }

  /** With offset k the replica is where k calls of `next()` take the offset-0 replica. */
  lemma ReplicaRunsAhead<E>(steps: seq<string>, nav: Nav<E>, ev: RemoteEvent, k: nat)
    requires Registry(steps, nav.all)
    requires KeyOf(BaselineStep(nav, ev)) in nav.all && BaselineStep(nav, ev).Some?
    ensures Replicate(steps, nav, Some(ev), k).nav == IterNext(steps, Replicate(steps, nav, Some(ev), 0).nav, k)
  {
    ReplayIsIteratedNext(steps, Baseline(nav, ev), k);
  }

  /** A null or undefined event leaves the state as it is. */
  lemma ReplicaIgnoresNull<E>(steps: seq<string>, nav: Nav<E>, offset: nat)
    requires Registry(steps, nav.all)
    ensures Replicate(steps, nav, None, offset) == Replica(Ignored, nav)
  {
  }
}
