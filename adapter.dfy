/**
 * The adapter object of browser/impressAsqAdapter.js: the closure state
 * (`activeStep`, `allSubsteps`) as the fields of a class whose methods are
 * `goto`, `next`, `prev`, `onAsqSocketGoto` and the start-up `goto`.
 *
 * Each method does its work step by step, as the source does, and is
 * proved to leave the state the pure transitions of the Navigation module
 * describe. The calls the adapter makes to the outside are recorded in
 * ghost logs: `asqSocket.emitGoto` in `emitted`, the host's
 * `impress().gotoOrig` in `rendered`, and the `impress-adapter:onGoto`
 * DOM event in `dispatched`.
 */
module AsqAdapter {
  import opened Values
  import opened Substeps
  import opened Navigation

  /** The payload of `asqSocket.emitGoto`. */
  datatype GotoEvent = GotoEvent(step: Option<string>, substepIdx: SubIdx, duration: Duration)

  /** A call of the host's `impress().gotoOrig(step, substepIdx, duration)`; a re-render passes only the step. */
  datatype RenderCall = RenderCall(step: Option<string>, substepIdx: Option<SubIdx>, duration: Duration)

  /** A `.step` element: its `id` attribute ("" when it has none) and its `.substep` descendants. */
  datatype DomStep<E> = DomStep(id: string, substeps: seq<SubstepElement<E>>)

  // ---------------------------------------------------------------------
  // Registry build
  // ---------------------------------------------------------------------

  /** The id the step at position `idx` ends up with: its own, or `"step-" + (idx + 1)`. */
  function StepName(id: string, idx: nat): (name: string)
    ensures name != ""
    ensures id != "" ==> name == id
  {
    if id == "" then "step-" + NatToString(idx + 1) else id
  }

  /** Two steps without an id get different generated names. */
  lemma GeneratedNamesDistinct(i: nat, j: nat)
    requires StepName("", i) == StepName("", j)
    ensures i == j
  {
    var a, b := StepName("", i), StepName("", j);
    assert NatToString(i + 1) == a[5..] == b[5..] == NatToString(j + 1);
    NatToStringInjective(i + 1, j + 1);
  }

  /** The step ids of the `.step` elements, in document order. */
  function Names<E>(dom: seq<DomStep<E>>): (steps: seq<string>)
    ensures |steps| == |dom|
  {
    seq(|dom|, i requires 0 <= i < |dom| => StepName(dom[i].id, i))
  }

  /** `allSubsteps` after the first `n` elements: each writes a fresh entry under its id. */
  function Entries<E>(dom: seq<DomStep<E>>, n: nat): map<string, StepEntry<E>>
    requires n <= |dom|
  {
    if n == 0 then map[]
    else Entries(dom, n - 1)[StepName(dom[n - 1].id, n - 1) := StepEntry(SubSteps(dom[n - 1].substeps), Num(-1))]
  }

  /**
   * Building `allSubsteps` from the `.step` elements in document order
   * (`steps = domsteps.map(...)`, writing `allSubsteps[el.id]` on the way).
   */
  method BuildRegistry<E>(dom: seq<DomStep<E>>) returns (steps: seq<string>, all: map<string, StepEntry<E>>)
    ensures steps == Names(dom) && all == Entries(dom, |dom|)
  {
    steps, all := [], map[];
    for i := 0 to |dom|
      invariant steps == Names(dom)[..i] && all == Entries(dom, i)
    {
      var id := dom[i].id;
      if id == "" {
        id := "step-" + NatToString(i + 1);
      }
      var subs := GetSubSteps(dom[i].substeps);
      all := all[id := StepEntry(subs, Num(-1))];
      BuildStep(dom, i, id, subs);
      steps := steps + [id];
    }
    assert Names(dom)[..|dom|] == Names(dom);
  }

  /** Handling the element at position `i` extends the ids and the entries by that element's. */
  lemma BuildStep<E>(dom: seq<DomStep<E>>, i: nat, id: string, subs: seq<Slot<E>>)
    requires i < |dom| && id == StepName(dom[i].id, i) && subs == SubSteps(dom[i].substeps)
    ensures Names(dom)[..i] + [id] == Names(dom)[..i + 1]
    ensures Entries(dom, i)[id := StepEntry(subs, Num(-1))] == Entries(dom, i + 1)
  {
  }

  /** The build gives every step an entry and nothing else one: the ids and the keys agree. */
  lemma {:induction false} BuiltKeys<E>(dom: seq<DomStep<E>>, n: nat)
    requires n <= |dom|
    ensures Registry(Names(dom)[..n], Entries(dom, n))
  {
    if n > 0 {
      BuiltKeys(dom, n - 1);
      assert Names(dom)[..n] == Names(dom)[..n - 1] + [StepName(dom[n - 1].id, n - 1)];
    }
  }

  /** Every entry the build writes starts at substep position -1. */
  lemma {:induction false} BuiltInactive<E>(dom: seq<DomStep<E>>, n: nat)
    requires n <= |dom|
    ensures forall s :: s in Entries(dom, n) ==> Entries(dom, n)[s].active == Num(-1)
  {
    if n > 0 {
      BuiltInactive(dom, n - 1);
    }
  }

  /** A step's entry holds the substep slots of the last element with its id. */
  lemma {:induction false} BuiltSubsteps<E>(dom: seq<DomStep<E>>, n: nat, i: nat)
    requires i < n <= |dom|
    requires Names(dom)[i] !in Names(dom)[i + 1..n]
    ensures Names(dom)[i] in Entries(dom, n)
    ensures Entries(dom, n)[Names(dom)[i]].substeps == SubSteps(dom[i].substeps)
  {
    var names := Names(dom);
    var last := StepName(dom[n - 1].id, n - 1);
    assert names[n - 1] == last;
    assert Entries(dom, n) == Entries(dom, n - 1)[last := StepEntry(SubSteps(dom[n - 1].substeps), Num(-1))];
    if i < n - 1 {
      assert names[i] != last by {
        assert names[i + 1..n][n - 1 - (i + 1)] == last;
      }
      assert names[i] !in names[i + 1..n - 1] by {
        assert names[i + 1..n - 1] == names[i + 1..n][..n - 1 - (i + 1)];
      }
      BuiltSubsteps(dom, n - 1, i);
    }
  }

  // ---------------------------------------------------------------------
  // The adapter
  // ---------------------------------------------------------------------

  /**
   * How many rounds `while (times-- > 0)` runs from `times`: the test is
   * made before each decrement, so a count of zero or less runs none.
   */
  function Rounds(times: int): (n: nat)
    ensures n == if times > 0 then times else 0
    decreases if times > 0 then times else 0
  {
    if times > 0 then 1 + Rounds(times - 1) else 0
  }

  /** The `emitGoto` payloads a `goto` with this outcome sends: one on a commit, none otherwise. */
  function Emission(o: Outcome, duration: Duration): seq<GotoEvent>
  {
    if o.Committed? then [GotoEvent(o.step, o.substepIdx, duration)] else []
  }

  /** The host calls a `goto` with this outcome makes: `gotoOrig(activeStep)` on a re-render. */
  function Redraw(o: Outcome): seq<RenderCall>
  {
    if o.Rerendered? then [RenderCall(o.step, None, None)] else []
  }

  /**
   * What a `goto` returns once the host is asked to redraw. The re-render
   * path calls `impress().gotoOrig(activeStep)`, which throws until
   * impress.js is patched: a ReferenceError without impress.js (the file is
   * strict code), a TypeError with an unpatched API, which has no `gotoOrig`.
   */
  function HostOutcome(o: Outcome, patched: bool): (r: Outcome)
    ensures patched ==> r == o
    ensures r != o ==> o.Rerendered? && r == Fault
    ensures o.Rerendered? && !patched ==> r.Fault?
  {
    if o.Rerendered? && !patched then Fault else o
  }

  /**
   * `goto(getElementFromHash() || steps[0], null, 0)`, the start-up call of
   * `patchImpress`: it never throws, and it either commits a step with a
   * null position or leaves the state alone (the fragment names no step, or
   * the step is already active).
   */
  function PatchedStart<E>(steps: seq<string>, nav: Nav<E>, hash: string): (t: Transition<E>)
    requires Registry(steps, nav.all)
    ensures !t.outcome.Fault?
    ensures t.outcome.Committed? ==>
              t.nav.activeStep.Some? && t.nav.activeStep.value in steps && t.outcome.substepIdx == Null
    ensures !t.outcome.Committed? ==> t.nav == nav
  {
    GotoTransition(steps, nav, StartTarget(steps, false, hash, NoTarget), Null)
  }

  class Adapter<E> {
    /** The step ids in presentation order. */
    const steps: seq<string>
    /** How many `next` rounds a replica runs ahead of the events it receives. */
    const offset: int
    var activeStep: Option<string>
    var allSubsteps: map<string, StepEntry<E>>
    /** Whether impress.js's `goto`, `next` and `prev` now route through the adapter. */
    var impressPatched: bool
    /** Every `asqSocket.emitGoto` payload, oldest first. */
    ghost var emitted: seq<GotoEvent>
    /** Every call of the host's `gotoOrig`, oldest first. */
    ghost var rendered: seq<RenderCall>
    /** Every `impress-adapter:onGoto` event's detail, oldest first. */
    ghost var dispatched: seq<RemoteEvent>

    ghost predicate Valid()
      reads this
    {
      Registry(steps, allSubsteps)
    }

    /** The closure state as a value. */
    function State(): Nav<E>
      reads this
    {
      Nav(activeStep, allSubsteps)
    }

    /** An adapter over a prebuilt slide tree (`slidesTree.steps`, `slidesTree.allSubsteps`). */
    constructor FromTree(tree: seq<string>, all: map<string, StepEntry<E>>, offset: int)
      requires Registry(tree, all)
      ensures Valid() && !impressPatched
      ensures steps == tree && this.offset == offset
      ensures State() == Nav(None, all)
      ensures emitted == [] && rendered == [] && dispatched == []
    {
      steps := tree;
      this.offset := offset;
      activeStep := None;
      allSubsteps := all;
      impressPatched := false;
      emitted, rendered, dispatched := [], [], [];
    }

    /** An adapter over the `.step` elements of the document. */
    constructor FromDom(dom: seq<DomStep<E>>, offset: int)
      ensures Valid() && !impressPatched
      ensures steps == Names(dom) && this.offset == offset
      ensures State() == Nav(None, Entries(dom, |dom|))
      ensures emitted == [] && rendered == [] && dispatched == []
    {
      var tree, all := BuildRegistry(dom);
      BuiltKeys(dom, |dom|);
      assert Names(dom)[..|dom|] == Names(dom);
      steps := tree;
      this.offset := offset;
      activeStep := None;
      allSubsteps := all;
      impressPatched := false;
      emitted, rendered, dispatched := [], [], [];
    }

    /**
     * `goto(id, subIdx, duration)`: the state becomes the one
     * GotoTransition describes; a commit emits exactly its pair, a
     * re-render asks the host to redraw the active step (and throws while
     * impress.js is unpatched), and nothing else reaches the outside.
     */
    method Goto(target: Target, subIdx: SubIdx, duration: Duration) returns (outcome: Outcome)
      requires Valid()
      modifies this`activeStep, this`allSubsteps, this`emitted, this`rendered
      ensures Valid()
      ensures var t := GotoTransition(steps, old(State()), target, subIdx);
              outcome == HostOutcome(t.outcome, impressPatched) && State() == t.nav
      ensures emitted == old(emitted) + Emission(outcome, duration)
      ensures rendered == old(rendered) + Redraw(outcome)
    {
      ghost var t := GotoTransition(steps, State(), target, subIdx);
      var id := GetStep(steps, target);
      if id.None? && NoIndex(subIdx) {
        outcome := Rejected;
      } else if activeStep == id && Falsy(subIdx) {
        assert t.outcome == Rerendered(activeStep);
        if impressPatched {
          rendered := rendered + [RenderCall(activeStep, None, None)];
          outcome := Rerendered(activeStep);
        } else {
          outcome := Fault;
        }
      } else {
        activeStep := OrElse(id, activeStep);
        var key := KeyOf(activeStep);
        if key in allSubsteps {
          var v := Stored(subIdx);
          allSubsteps := allSubsteps[key := allSubsteps[key].(active := v)];
          emitted := emitted + [GotoEvent(activeStep, v, duration)];
          outcome := Committed(activeStep, v);
        } else {
          outcome := Fault;
        }
      }
    }

    /** `next()`: the state NextTransition describes, emitted through `goto`. */
    method Next() returns (outcome: Outcome)
      requires Valid()
      modifies this`activeStep, this`allSubsteps, this`emitted, this`rendered
      ensures Valid()
      ensures var t := NextTransition(steps, old(State()));
              outcome == HostOutcome(t.outcome, impressPatched) && State() == t.nav
      ensures emitted == old(emitted) + Emission(outcome, None)
      ensures rendered == old(rendered) + Redraw(outcome)
    {
      var key := KeyOf(activeStep);
      if key !in allSubsteps {
        return Fault;
      }
      var substeps, subactive := allSubsteps[key].substeps, allSubsteps[key].active;
      if |substeps| > 0 && subactive != Num(|substeps| - 1) {
        var n := if subactive.Num? then subactive.n else -1;
        assert NextCall(steps, activeStep, allSubsteps[key]) == Call(NoTarget, Num(n + 1));
        outcome := Goto(NoTarget, Num(n + 1), None);
      } else {
        var k := IndexOf(steps, activeStep) + 1;
        var next := if k < |steps| then steps[k] else steps[0];
        assert NextCall(steps, activeStep, allSubsteps[key]) == Call(ByName(next), Num(-1));
        outcome := Goto(ByName(next), Num(-1), None);
      }
    }

    /** `prev()`: the state PrevTransition describes, emitted through `goto`. */
    method Prev() returns (outcome: Outcome)
      requires Valid()
      modifies this`activeStep, this`allSubsteps, this`emitted, this`rendered
      ensures Valid()
      ensures var t := PrevTransition(steps, old(State()));
              outcome == HostOutcome(t.outcome, impressPatched) && State() == t.nav
      ensures emitted == old(emitted) + Emission(outcome, None)
      ensures rendered == old(rendered) + Redraw(outcome)
    {
      var key := KeyOf(activeStep);
      if key !in allSubsteps {
        return Fault;
      }
      var substeps, subactive := allSubsteps[key].substeps, allSubsteps[key].active;
      if |substeps| > 0 && subactive.Num? && subactive.n >= 0 {
        assert PrevCall(steps, State()) == Call(NoTarget, Num(subactive.n - 1));
        outcome := Goto(NoTarget, Num(subactive.n - 1), None);
        return;
      }
      var k := IndexOf(steps, activeStep) - 1;
      var prev := if k >= 0 then steps[k] else steps[|steps| - 1];
      assert PrevCall(steps, State()) == Call(ByName(prev), Num(|allSubsteps[prev].substeps| - 1));
      outcome := Goto(ByName(prev), Num(|allSubsteps[prev].substeps| - 1), None);
    }

    /**
     * `patchImpress()`: once impress.js is on the page, and only the first
     * time, route its API through the adapter and start at the step the
     * location fragment names, else the first step. Without impress.js the
     * source waits for `impress:ready` and calls this again.
     */
    method PatchImpress(hostPresent: bool, hash: string) returns (outcome: Option<Outcome>)
      requires Valid()
      modifies this`activeStep, this`allSubsteps, this`emitted, this`rendered, this`impressPatched
      ensures Valid()
      ensures impressPatched == (old(impressPatched) || hostPresent)
      ensures old(impressPatched) || !hostPresent ==>
                outcome == None && State() == old(State()) && emitted == old(emitted) && rendered == old(rendered)
      ensures !old(impressPatched) && hostPresent ==>
                var t := PatchedStart(steps, old(State()), hash);
                outcome == Some(t.outcome) && State() == t.nav &&
                emitted == old(emitted) + Emission(t.outcome, Some(0)) && rendered == old(rendered) + Redraw(t.outcome)
    {
      if impressPatched || !hostPresent {
        return None;
      }
      impressPatched := true;
      var o := Goto(StartTarget(steps, false, hash, NoTarget), Null, Some(0));
      outcome := Some(o);
    }

    /** One round of the replica loop: apply what `getNext()` returns, without emitting. */
    method SilentRound()
      requires Valid() && Ready(steps, State())
      modifies this`activeStep, this`allSubsteps
      ensures Valid() && Ready(steps, State())
      ensures State() == SilentNext(steps, old(State()))
    {
      var nextState := GetNext(steps, State());
      activeStep := OrElse(nextState.step, activeStep);
      var k := KeyOf(activeStep);
      allSubsteps := allSubsteps[k := allSubsteps[k].(active := Stored(nextState.substepIdx))];
    }

    /** The `while (times-- > 0)` loop of `onAsqSocketGoto`: `offset` silent rounds of `getNext`. */
    method RunAhead()
      requires Valid() && Ready(steps, State())
      modifies this`activeStep, this`allSubsteps
      ensures Valid() && Ready(steps, State())
      ensures State() == Replay(steps, old(State()), Rounds(offset))
    {
      ghost var base := State();
      ghost var done: nat := 0;
      var times := offset;
      while times > 0
        invariant Valid() && Ready(steps, State())
        invariant done + Rounds(times) == Rounds(offset)
        invariant State() == Replay(steps, base, done)
        decreases times
      {
        SilentRound();
        done := done + 1;
        times := times - 1;
      }
    }

    /**
     * `onAsqSocketGoto(data)`: the replica path. The state becomes the one
     * Replicate describes for `offset` rounds, and nothing of it is emitted.
     * An applied event is drawn by the host when there is one and is
     * re-dispatched as a DOM event. If that host is not patched yet, it is
     * patched first, and the start-up `goto` of `patchImpress` may move the
     * replica and emit.
     */
    method OnAsqSocketGoto(data: Option<RemoteEvent>, hostPresent: bool, hash: string) returns (outcome: ReplicaOutcome)
      requires Valid()
      modifies this
      ensures Valid()
      ensures outcome == Replicate(steps, old(State()), data, Rounds(offset)).outcome
      ensures impressPatched == (old(impressPatched) || (outcome.Applied? && hostPresent))
      ensures !(outcome.Applied? && hostPresent && !old(impressPatched)) ==>
                State() == Replicate(steps, old(State()), data, Rounds(offset)).nav && emitted == old(emitted)
      ensures outcome.Applied? && hostPresent && !old(impressPatched) ==>
                var p := PatchedStart(steps, Replicate(steps, old(State()), data, Rounds(offset)).nav, hash);
                State() == p.nav && emitted == old(emitted) + Emission(p.outcome, Some(0))
      ensures outcome.Applied? && hostPresent ==>
                KeyOf(activeStep) in allSubsteps &&
                rendered == old(rendered) +
                  (if old(impressPatched) then []
                   else Redraw(PatchedStart(steps, Replicate(steps, old(State()), data, Rounds(offset)).nav, hash).outcome)) +
                  [RenderCall(activeStep, Some(allSubsteps[KeyOf(activeStep)].active), data.value.duration)]
      ensures !(outcome.Applied? && hostPresent) ==> rendered == old(rendered)
      ensures outcome.Applied? ==> dispatched == old(dispatched) + [data.value]
      ensures !outcome.Applied? ==> dispatched == old(dispatched)
    {
      if data.None? {
        return Ignored;
      }
      var ev := data.value;
      activeStep := OrElse(ev.step, activeStep);
      var key := KeyOf(activeStep);
      if key !in allSubsteps {
        return Faulted;
      }
      allSubsteps := allSubsteps[key := allSubsteps[key].(active := Stored(ev.substepIdx))];
      assert State() == Baseline(old(State()), ev);
      RunAhead();
      if hostPresent {
        if !impressPatched {
          var started := PatchImpress(true, hash);
        }
        var k := KeyOf(activeStep);
        rendered := rendered + [RenderCall(activeStep, Some(allSubsteps[k].active), ev.duration)];
      }
      dispatched := dispatched + [ev];
      return Applied;
    }

    /**
     * Starting the presentation. Standalone, it is `goto(first, null, 0)`,
     * where `first` is the step the location fragment names, else the
     * `initStep` target, else the first step; otherwise it is `patchImpress()`.
     */
    method Start(standalone: bool, hostPresent: bool, hash: string, initStep: Target) returns (outcome: Option<Outcome>)
      requires Valid()
      modifies this`activeStep, this`allSubsteps, this`emitted, this`rendered, this`impressPatched
      ensures Valid()
      ensures standalone ==>
                var t := GotoTransition(steps, old(State()), StartTarget(steps, true, hash, initStep), Null);
                var o := HostOutcome(t.outcome, old(impressPatched));
                outcome == Some(o) && State() == t.nav && impressPatched == old(impressPatched) &&
                emitted == old(emitted) + Emission(o, Some(0)) && rendered == old(rendered) + Redraw(o)
      ensures !standalone ==> impressPatched == (old(impressPatched) || hostPresent)
      ensures !standalone && (old(impressPatched) || !hostPresent) ==>
                outcome == None && State() == old(State()) && emitted == old(emitted) && rendered == old(rendered)
      ensures !standalone && !old(impressPatched) && hostPresent ==>
                var t := PatchedStart(steps, old(State()), hash);
                outcome == Some(t.outcome) && State() == t.nav &&
                emitted == old(emitted) + Emission(t.outcome, Some(0)) && rendered == old(rendered) + Redraw(t.outcome)
    {
      if standalone {
        var o := Goto(StartTarget(steps, true, hash, initStep), Null, Some(0));
        outcome := Some(o);
      } else {
        outcome := PatchImpress(hostPresent, hash);
      }
    }
  }

  /**
   * The target the start-up `goto` is given: the step the location fragment
   * names comes first; standalone, an unknown fragment falls back to the
   * `initStep` target and then to the first step, while `patchImpress`
   * passes any non-empty fragment on unchecked.
   */
  function StartTarget(steps: seq<string>, standalone: bool, hash: string, initStep: Target): (r: Target)
    ensures standalone && GetStep(steps, ByName(FragmentId(hash))).Some? ==> r == ByName(FragmentId(hash))
    ensures !standalone && FragmentId(hash) != "" ==> r == ByName(FragmentId(hash))
    ensures standalone && |steps| > 0 && steps[0] != "" ==> GetStep(steps, r).Some?
    ensures r.NoTarget? ==> |steps| == 0
  {
    var fallback := if |steps| > 0 then ByName(steps[0]) else NoTarget;
    if standalone then
      var fromHash, fromInit := GetStep(steps, ByName(FragmentId(hash))), GetStep(steps, initStep);
      if fromHash.Some? then ByName(fromHash.value)
      else if fromInit.Some? then ByName(fromInit.value)
      else fallback
    else if FragmentId(hash) != "" then ByName(FragmentId(hash))
    else fallback
  }

  /**
   * A standalone start over a named first step always shows a step: the
   * fragment's step, else the `initStep` target, else the first step. The
   * start-up `goto` then either commits that step with a null position or,
   * when it is already active, only re-renders it.
   */
  lemma StartShowsAStep<E>(steps: seq<string>, nav: Nav<E>, hash: string, initStep: Target)
    requires Registry(steps, nav.all) && |steps| > 0 && steps[0] != ""
    ensures var target := StartTarget(steps, true, hash, initStep);
            var t := GotoTransition(steps, nav, target, Null);
            GetStep(steps, target).Some? && t.nav.activeStep == GetStep(steps, target) &&
            (t.outcome.Committed? ==> t.nav.all[KeyOf(t.nav.activeStep)].active == Null) &&
            (t.outcome.Committed? || t.outcome == Rerendered(nav.activeStep))
  {
  }
}
