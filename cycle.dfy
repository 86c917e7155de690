/**
 * The circular order `next` and `prev` walk through.
 *
 * Every position of a presentation is a pair (step, substep position),
 * with the position running from -1 (no substep revealed) to the step's
 * substep count minus one. Laid end to end in step order, these pairs get
 * a rank: step i contributes `|substeps| + 1` ranks, after all the ranks of
 * the steps before it. On well-formed states, `next()` adds one to the rank
 * and `prev()` subtracts one, both modulo the total number of positions.
 * From that follow the wrap-around of `next`, its period, and `prev` undoing
 * `next` (and the reverse).
 *
 * The rank only sees the position a null slot stands for (-1, as `next`
 * reads it), so the results here restore the position, with the slot
 * holding that position as a number.
 */
module NavigationCycle {
  import opened Values
  import opened Navigation

  /** No step id occurs twice. */
  predicate Distinct(steps: seq<string>)
  {
    |steps| == 0 || (steps[0] !in steps[1..] && Distinct(steps[1..]))
  }

  /** No step id is empty (an empty id never resolves as a target). */
  predicate Named(steps: seq<string>)
  {
    "" !in steps
  }

  /** The stored position is null or lies between -1 and the last substep. */
  predicate InRange<E>(e: StepEntry<E>)
  {
    e.active.Null? || (e.active.Num? && -1 <= e.active.n < |e.substeps|)
  }

  /** A started presentation over distinct, named steps, positioned in range. */
  ghost predicate WellFormed<E>(steps: seq<string>, nav: Nav<E>)
  {
    Registry(steps, nav.all) && Distinct(steps) && Named(steps) &&
    nav.activeStep.Some? && nav.activeStep.value in nav.all &&
    InRange(nav.all[nav.activeStep.value])
  }

  /** `sizes` lists the number of positions of each step, in step order. */
  ghost predicate Fits<E>(steps: seq<string>, sizes: seq<nat>, all: map<string, StepEntry<E>>)
  {
    |sizes| == |steps| &&
    (|steps| == 0 ||
     (steps[0] in all && sizes[0] == |all[steps[0]].substeps| + 1 && Fits(steps[1..], sizes[1..], all)))
  }

  /** The number of positions of each step, in step order. */
  ghost function Shape<E>(steps: seq<string>, all: map<string, StepEntry<E>>): (sizes: seq<nat>)
    requires forall s :: s in steps ==> s in all
    ensures Fits(steps, sizes, all)
    decreases |steps|
  {
    if |steps| == 0 then []
    else
      var rest := Shape(steps[1..], all);
      var sizes := [|all[steps[0]].substeps| + 1] + rest;
      assert sizes[1..] == rest;
      sizes
  }

  /** The number of positions before step `i`. */
  function Prefix(sizes: seq<nat>, i: nat): nat
    requires i <= |sizes|
  {
    if i == 0 then 0 else Prefix(sizes, i - 1) + sizes[i - 1]
  }

  /** The number of positions of the whole presentation. */
  ghost function Total<E>(steps: seq<string>, all: map<string, StepEntry<E>>): nat
    requires Registry(steps, all)
  {
    Prefix(Shape(steps, all), |steps|)
  }

  /** The position a null slot stands for, as `next` reads it. */
  function Position<E>(nav: Nav<E>): int
    requires KeyOf(nav.activeStep) in nav.all
  {
    Effective(nav.all[KeyOf(nav.activeStep)].active)
  }

  /** The rank of the current (step, position) pair, for the step sizes `sizes`. */
  ghost function Rank<E>(steps: seq<string>, sizes: seq<nat>, nav: Nav<E>): int
    requires WellFormed(steps, nav) && |sizes| == |steps|
  {
    Prefix(sizes, IndexOf(steps, nav.activeStep)) + Position(nav) + 1
  }

  /** Two states show the same step at the same position. */
  ghost predicate SamePosition<E>(nav1: Nav<E>, nav2: Nav<E>)
    requires KeyOf(nav1.activeStep) in nav1.all && KeyOf(nav2.activeStep) in nav2.all
  {
    nav1.activeStep == nav2.activeStep && Position(nav1) == Position(nav2)
  }

  // ---------------------------------------------------------------------
  // Ranks
  // ---------------------------------------------------------------------

  /** A step's positions all lie before the positions of any later step. */
  lemma {:induction false} PrefixGrows(sizes: seq<nat>, i: nat, j: nat)
    requires i < j <= |sizes|
    ensures Prefix(sizes, i) + sizes[i] <= Prefix(sizes, j)
    decreases j
  {
    if j > i + 1 {
      PrefixGrows(sizes, i, j - 1);
    }
  }

  /** The position of distinct steps is where they occur. */
  lemma {:induction false} IndexOfDistinct(steps: seq<string>, k: int)
    requires Distinct(steps) && 0 <= k < |steps|
    ensures IndexOf(steps, Some(steps[k])) == k
  {
    if k > 0 {
      IndexOfDistinct(steps[1..], k - 1);
      assert steps[k] == steps[1..][k - 1];
      assert steps[0] != steps[k];
    }
  }

  /** A well-formed state's rank lies within its step's block of ranks. */
  lemma RankBounds<E>(steps: seq<string>, sizes: seq<nat>, nav: Nav<E>)
    requires WellFormed(steps, nav) && Fits(steps, sizes, nav.all)
    ensures var i := IndexOf(steps, nav.activeStep);
            0 <= i < |steps| &&
            Prefix(sizes, i) <= Rank(steps, sizes, nav) < Prefix(sizes, i + 1) &&
            0 <= Rank(steps, sizes, nav) < Prefix(sizes, |sizes|)
  {
    var i := IndexOf(steps, nav.activeStep);
    var e := nav.all[steps[i]];
    FitsAt(steps, sizes, nav.all, i);
    assert Prefix(sizes, i + 1) == Prefix(sizes, i) + sizes[i];
    assert InRange(e);
    assert -1 <= Position(nav) < |e.substeps|;
    PrefixGrows(sizes, i, |steps|);
  }

  /** The rank determines the step and the position. */
  lemma RankInjective<E>(steps: seq<string>, sizes: seq<nat>, nav1: Nav<E>, nav2: Nav<E>)
    requires WellFormed(steps, nav1) && WellFormed(steps, nav2)
    requires Fits(steps, sizes, nav1.all) && Fits(steps, sizes, nav2.all)
    ensures Rank(steps, sizes, nav1) == Rank(steps, sizes, nav2) <==> SamePosition(nav1, nav2)
  {
    var i, j := IndexOf(steps, nav1.activeStep), IndexOf(steps, nav2.activeStep);
    RankBounds(steps, sizes, nav1);
    RankBounds(steps, sizes, nav2);
    if i < j {
      PrefixGrows(sizes, i, j);
    } else if j < i {
      PrefixGrows(sizes, j, i);
    } else {
      assert nav1.activeStep.value == steps[i] == nav2.activeStep.value;
    }
  }

  /** The entry for step `i` is what `sizes` counts at `i`. */
  lemma {:induction false} FitsAt<E>(steps: seq<string>, sizes: seq<nat>, all: map<string, StepEntry<E>>, i: int)
    requires Fits(steps, sizes, all) && 0 <= i < |steps|
    ensures steps[i] in all && sizes[i] == |all[steps[i]].substeps| + 1
  {
    if i > 0 {
      FitsAt(steps[1..], sizes[1..], all, i - 1);
    }
  }

  /** Step sizes depend only on the substeps of the steps. */
  lemma {:induction false} FitsSame<E>(steps: seq<string>, sizes: seq<nat>,
                                       all1: map<string, StepEntry<E>>, all2: map<string, StepEntry<E>>)
    requires Fits(steps, sizes, all1)
    requires forall s :: s in all1 ==> s in all2 && all2[s].substeps == all1[s].substeps
    ensures Fits(steps, sizes, all2)
    decreases |steps|
  {
    if |steps| > 0 {
      FitsSame(steps[1..], sizes[1..], all1, all2);
    }
  }

  /** Transitions keep every step's substeps, and so the step sizes. */
  lemma FitsKept<E>(steps: seq<string>, sizes: seq<nat>, nav1: Nav<E>, nav2: Nav<E>, key: string)
    requires Registry(steps, nav1.all) && Fits(steps, sizes, nav1.all) && OnlyActiveOf(nav1, nav2, key)
    ensures Registry(steps, nav2.all) && Fits(steps, sizes, nav2.all)
  {
    FitsSame(steps, sizes, nav1.all, nav2.all);
  }

  // ---------------------------------------------------------------------
  // next and prev move by one rank
  // ---------------------------------------------------------------------

  /** The rank after `r`, wrapping from the last rank to the first. */
  function Succ(r: int, total: int): int
  {
    if r + 1 == total then 0 else r + 1
  }

  /** The rank before `r`, wrapping from the first rank to the last. */
  function Pred(r: int, total: int): int
  {
    if r == 0 then total - 1 else r - 1
  }

  /** Moving to the substep position `n` of the active step, as `next` and `prev` do within a step. */
  lemma WithinStep<E>(steps: seq<string>, sizes: seq<nat>, nav: Nav<E>, n: int, t: Transition<E>)
    requires WellFormed(steps, nav) && Fits(steps, sizes, nav.all)
    requires -1 <= n < |nav.all[nav.activeStep.value].substeps|
    requires t == GotoTransition(steps, nav, NoTarget, Num(n))
    ensures t.outcome == Committed(nav.activeStep, Num(n)) && WellFormed(steps, t.nav) &&
            t.nav.activeStep == nav.activeStep && Fits(steps, sizes, t.nav.all) &&
            Rank(steps, sizes, t.nav) == Rank(steps, sizes, nav) - Position(nav) + n
  {
    GotoFrame(steps, nav, NoTarget, Num(n));
    FitsKept(steps, sizes, nav, t.nav, KeyOf(t.nav.activeStep));
  }

  /** Entering the step at index `k` at substep position `n`, as `next` and `prev` do across steps. */
  lemma AcrossSteps<E>(steps: seq<string>, sizes: seq<nat>, nav: Nav<E>, k: int, n: int, t: Transition<E>)
    requires WellFormed(steps, nav) && Fits(steps, sizes, nav.all) && 0 <= k < |steps|
    requires -1 <= n < |nav.all[steps[k]].substeps|
    requires Some(steps[k]) != nav.activeStep || n != 0
    requires t == GotoTransition(steps, nav, ByName(steps[k]), Num(n))
    ensures t.outcome == Committed(Some(steps[k]), Num(n)) && WellFormed(steps, t.nav) &&
            t.nav.activeStep == Some(steps[k]) && Fits(steps, sizes, t.nav.all) &&
            Rank(steps, sizes, t.nav) == Prefix(sizes, k) + n + 1
  {
    GotoFrame(steps, nav, ByName(steps[k]), Num(n));
    FitsKept(steps, sizes, nav, t.nav, KeyOf(t.nav.activeStep));
    IndexOfDistinct(steps, k);
  }

  /** `next()` while substeps are left reveals the next one. */
  lemma NextInStep<E>(steps: seq<string>, sizes: seq<nat>, nav: Nav<E>)
    requires WellFormed(steps, nav) && Fits(steps, sizes, nav.all)
    requires SubstepsAhead(nav.all[nav.activeStep.value])
    ensures var t := NextTransition(steps, nav);
            t.outcome.Committed? && WellFormed(steps, t.nav) && Fits(steps, sizes, t.nav.all) &&
            t.nav.all[t.nav.activeStep.value].active.Num? &&
            Rank(steps, sizes, t.nav) == Rank(steps, sizes, nav) + 1 ==
              Succ(Rank(steps, sizes, nav), Prefix(sizes, |sizes|))
  {
    var t := NextTransition(steps, nav);
    assert t == GotoTransition(steps, nav, NoTarget, Num(Position(nav) + 1));
    WithinStep(steps, sizes, nav, Position(nav) + 1, t);
    RankBounds(steps, sizes, t.nav);
  }

  /** `next()` on the last position of a step enters the following step (the first after the last). */
  lemma NextToStep<E>(steps: seq<string>, sizes: seq<nat>, nav: Nav<E>)
    requires WellFormed(steps, nav) && Fits(steps, sizes, nav.all)
    requires !SubstepsAhead(nav.all[nav.activeStep.value])
    ensures var t := NextTransition(steps, nav);
            var i := IndexOf(steps, nav.activeStep);
            t.outcome.Committed? && WellFormed(steps, t.nav) && Fits(steps, sizes, t.nav.all) &&
            t.nav.all[t.nav.activeStep.value].active.Num? &&
            i < |sizes| && (i + 1 < |sizes| ==> sizes[i + 1] >= 1) &&
            Rank(steps, sizes, nav) + 1 == Prefix(sizes, i + 1) &&
            Rank(steps, sizes, t.nav) == Prefix(sizes, if i + 1 < |sizes| then i + 1 else 0)
  {
    var t := NextTransition(steps, nav);
    var i := IndexOf(steps, nav.activeStep);
    var e := nav.all[nav.activeStep.value];
    RankBounds(steps, sizes, nav);
    FitsAt(steps, sizes, nav.all, i);
    assert Position(nav) == |e.substeps| - 1 by {}
    var k := if i + 1 < |steps| then i + 1 else 0;
    FitsAt(steps, sizes, nav.all, k);
    assert NextStepId(steps, nav.activeStep) == steps[k] by {}
    assert t == GotoTransition(steps, nav, ByName(steps[k]), Num(-1)) by {}
    AcrossSteps(steps, sizes, nav, k, -1, t);
  }

  /** Leaving the last position of step `i` for the first position of the next step is one rank on. */
  lemma WrapForward(sizes: seq<nat>, i: nat, r: int, r': int)
    requires i < |sizes| && (i + 1 < |sizes| ==> sizes[i + 1] >= 1)
    requires r + 1 == Prefix(sizes, i + 1)
    requires r' == Prefix(sizes, if i + 1 < |sizes| then i + 1 else 0)
    ensures r' == Succ(r, Prefix(sizes, |sizes|))
  {
    if i + 1 < |sizes| {
      PrefixGrows(sizes, i + 1, |sizes|);
    }
  }

  /**
   * On a well-formed state `next()` always commits (and so emits), keeps the
   * state well-formed, leaves a numeric position, and moves one rank on,
   * from the last position back to the first.
   */
  lemma NextRank<E>(steps: seq<string>, sizes: seq<nat>, nav: Nav<E>)
    requires WellFormed(steps, nav) && Fits(steps, sizes, nav.all)
    ensures var t := NextTransition(steps, nav);
            t.outcome.Committed? && WellFormed(steps, t.nav) && Fits(steps, sizes, t.nav.all) &&
            t.nav.all[t.nav.activeStep.value].active.Num? &&
            Rank(steps, sizes, t.nav) == Succ(Rank(steps, sizes, nav), Prefix(sizes, |sizes|))
  {
    if SubstepsAhead(nav.all[nav.activeStep.value]) {
      NextInStep(steps, sizes, nav);
    } else {
      NextToStep(steps, sizes, nav);
      WrapForward(sizes, IndexOf(steps, nav.activeStep),
                  Rank(steps, sizes, nav), Rank(steps, sizes, NextTransition(steps, nav).nav));
    }
  }

  /** `prev()` on an engaged substep steps back one substep. */
  lemma PrevInStep<E>(steps: seq<string>, sizes: seq<nat>, nav: Nav<E>)
    requires WellFormed(steps, nav) && Fits(steps, sizes, nav.all)
    requires var e := nav.all[nav.activeStep.value]; |e.substeps| > 0 && e.active.Num? && e.active.n >= 0
    ensures var t := PrevTransition(steps, nav);
            t.outcome.Committed? && WellFormed(steps, t.nav) && Fits(steps, sizes, t.nav.all) &&
            t.nav.all[t.nav.activeStep.value].active.Num? &&
            Rank(steps, sizes, t.nav) == Rank(steps, sizes, nav) - 1
  {
    var t := PrevTransition(steps, nav);
    var n := nav.all[nav.activeStep.value].active.n;
    assert t == GotoTransition(steps, nav, NoTarget, Num(n - 1));
    WithinStep(steps, sizes, nav, n - 1, t);
  }

  /**
   * `prev()` with no substep engaged enters the previous step (the last
   * before the first) at its last position. Only a lone step holding exactly
   * one substep is excluded: there the call is `goto(step, 0)`, which the
   * resize check turns into a re-render (see PrevStallsOnOneStep).
   */
  lemma PrevToStep<E>(steps: seq<string>, sizes: seq<nat>, nav: Nav<E>)
    requires WellFormed(steps, nav) && Fits(steps, sizes, nav.all)
    requires |steps| != 1 || |nav.all[steps[0]].substeps| != 1
    requires var e := nav.all[nav.activeStep.value]; !(|e.substeps| > 0 && e.active.Num? && e.active.n >= 0)
    ensures var t := PrevTransition(steps, nav);
            var i := IndexOf(steps, nav.activeStep);
            t.outcome.Committed? && WellFormed(steps, t.nav) && Fits(steps, sizes, t.nav.all) &&
            t.nav.all[t.nav.activeStep.value].active.Num? &&
            i < |sizes| && (i > 0 ==> sizes[i - 1] >= 1) &&
            Rank(steps, sizes, nav) == Prefix(sizes, i) &&
            Rank(steps, sizes, t.nav) + 1 == Prefix(sizes, if i > 0 then i else |sizes|)
  {
    var t := PrevTransition(steps, nav);
    var i := IndexOf(steps, nav.activeStep);
    RankBounds(steps, sizes, nav);
    assert Position(nav) == -1 by {}
    var k := if i > 0 then i - 1 else |steps| - 1;
    assert PrevStepId(steps, nav.activeStep) == steps[k] by {}
    var n := |nav.all[steps[k]].substeps| - 1;
    assert Some(steps[k]) != nav.activeStep || n != 0 by {
      if |steps| >= 2 {
        IndexOfDistinct(steps, k);
      }
    }
    assert t == GotoTransition(steps, nav, ByName(steps[k]), Num(n)) by {}
    AcrossSteps(steps, sizes, nav, k, n, t);
    FitsAt(steps, sizes, nav.all, k);
    assert Prefix(sizes, k + 1) == Prefix(sizes, k) + sizes[k];
  }

  /** Leaving the first position of step `i` for the last position of the step before is one rank back. */
  lemma WrapBackward(sizes: seq<nat>, i: nat, r: int, r': int)
    requires i < |sizes| && (i > 0 ==> sizes[i - 1] >= 1)
    requires r == Prefix(sizes, i)
    requires r' + 1 == Prefix(sizes, if i > 0 then i else |sizes|)
    ensures r' == Pred(r, Prefix(sizes, |sizes|))
  {
    if i > 0 {
      assert Prefix(sizes, i) == Prefix(sizes, i - 1) + sizes[i - 1];
    }
  }

  /**
   * Unless the presentation is a lone step holding exactly one substep,
   * `prev()` on a well-formed state always commits, keeps the state
   * well-formed, leaves a numeric position, and moves one rank back, from
   * the first position round to the last.
   */
  lemma PrevRank<E>(steps: seq<string>, sizes: seq<nat>, nav: Nav<E>)
    requires WellFormed(steps, nav) && Fits(steps, sizes, nav.all)
    requires |steps| != 1 || |nav.all[steps[0]].substeps| != 1
    ensures var t := PrevTransition(steps, nav);
            t.outcome.Committed? && WellFormed(steps, t.nav) && Fits(steps, sizes, t.nav.all) &&
            t.nav.all[t.nav.activeStep.value].active.Num? &&
            Rank(steps, sizes, t.nav) == Pred(Rank(steps, sizes, nav), Prefix(sizes, |sizes|))
  {
    var e := nav.all[nav.activeStep.value];
    if |e.substeps| > 0 && e.active.Num? && e.active.n >= 0 {
      PrevInStep(steps, sizes, nav);
      assert Rank(steps, sizes, nav) > 0 by {
        RankBounds(steps, sizes, nav);
      }
    } else {
      PrevToStep(steps, sizes, nav);
      WrapBackward(sizes, IndexOf(steps, nav.activeStep),
                   Rank(steps, sizes, nav), Rank(steps, sizes, PrevTransition(steps, nav).nav));
    }
  }

  // ---------------------------------------------------------------------
  // Consequences
  // ---------------------------------------------------------------------

  /** The rank `k` places after `r`, for `k` up to a full round. */
  function Advance(r: int, k: int, total: int): int
  {
    if r + k < total then r + k else r + k - total
  }

  /** One more rank after `k - 1` ranks on is `k` ranks on. */
  lemma AdvanceStep(r: int, k: int, total: int)
    requires 0 <= r < total && 0 < k <= total
    ensures Succ(Advance(r, k - 1, total), total) == Advance(r, k, total)
  {
  }

  /** The rank of `r` when it is well-formed with the substep counts `sizes`, and -1 otherwise. */
  ghost function Place<E>(steps: seq<string>, sizes: seq<nat>, r: Nav<E>): (p: int)
    ensures p >= 0 ==> WellFormed(steps, r) && Fits(steps, sizes, r.all) && p == Rank(steps, sizes, r)
  {
    if WellFormed(steps, r) && Fits(steps, sizes, r.all) then Rank(steps, sizes, r) else -1
  }

  /** Zero calls of `next()` leave the state, and so its rank, where it is. */
  lemma PlaceStart<E>(steps: seq<string>, sizes: seq<nat>, nav: Nav<E>, k: nat)
    requires Place(steps, sizes, nav) >= 0 && k == 0
    ensures Place(steps, sizes, IterNext(steps, nav, k)) ==
            Advance(Place(steps, sizes, nav), k, Prefix(sizes, |sizes|))
  {
    RankBounds(steps, sizes, nav);
  }

  /** One more `next()` from where `k - 1` calls led is where `k` calls lead. */
  lemma PlaceStep<E>(steps: seq<string>, sizes: seq<nat>, nav: Nav<E>, k: nat)
    requires Place(steps, sizes, nav) >= 0 && 0 < k <= Prefix(sizes, |sizes|)
    ensures Place(steps, sizes, IterNext(steps, nav, k - 1)) ==
              Advance(Place(steps, sizes, nav), k - 1, Prefix(sizes, |sizes|)) ==>
            var r := IterNext(steps, nav, k);
            Place(steps, sizes, r) == Advance(Place(steps, sizes, nav), k, Prefix(sizes, |sizes|)) &&
            WellFormed(steps, r) && r.all[r.activeStep.value].active.Num?
  {
    var p := IterNext(steps, nav, k - 1);
    var total := Prefix(sizes, |sizes|);
    if Place(steps, sizes, p) == Advance(Place(steps, sizes, nav), k - 1, total) {
      RankBounds(steps, sizes, nav);
      assert Place(steps, sizes, p) >= 0;
      NextRank(steps, sizes, p);
      AdvanceStep(Rank(steps, sizes, nav), k, total);
    }
  }

  /** Two sequences of numbers that start equal and agree at `k` whenever they agree at `k - 1` agree up to `n`. */
  lemma {:induction false} Chain(f: nat -> int, g: nat -> int, n: nat)
    requires f(0) == g(0)
    requires forall k :: 0 < k <= n && f(k - 1) == g(k - 1) ==> f(k) == g(k)
    ensures f(n) == g(n)
  {
    if n > 0 {
      Chain(f, g, n - 1);
    }
  }

  /** `k` calls of `next()`, up to a full round, move `k` ranks on, wrapping once at the end. */
  lemma IterNextRank<E>(steps: seq<string>, sizes: seq<nat>, nav: Nav<E>, k: nat)
    requires Place(steps, sizes, nav) >= 0 && k <= Prefix(sizes, |sizes|)
    ensures Place(steps, sizes, IterNext(steps, nav, k)) ==
            Advance(Place(steps, sizes, nav), k, Prefix(sizes, |sizes|))
  {
    var start, total := Place(steps, sizes, nav), Prefix(sizes, |sizes|);
    var f := (j: nat) => Place(steps, sizes, IterNext(steps, nav, j));
    var g := (j: nat) => Advance(start, j, total);
    PlaceStart(steps, sizes, nav, 0);
    forall j | 0 < j <= k && f(j - 1) == g(j - 1)
      ensures f(j) == g(j)
    {
      PlaceStep(steps, sizes, nav, j);
    }
    Chain(f, g, k);
  }

  /** Any number of calls of `next()` keeps a state well-formed, with the same step sizes. */
  lemma {:induction false} IterNextWellFormed<E>(steps: seq<string>, sizes: seq<nat>, nav: Nav<E>, k: nat)
    requires WellFormed(steps, nav) && Fits(steps, sizes, nav.all)
    ensures WellFormed(steps, IterNext(steps, nav, k)) && Fits(steps, sizes, IterNext(steps, nav, k).all)
  {
    if k > 0 {
      IterNextWellFormed(steps, sizes, nav, k - 1);
      NextRank(steps, sizes, IterNext(steps, nav, k - 1));
    }
  }

  /** After any number of calls, at least one, `next()` has stored the position as a number. */
  lemma IterNextNumeric<E>(steps: seq<string>, sizes: seq<nat>, nav: Nav<E>, k: nat)
    requires WellFormed(steps, nav) && Fits(steps, sizes, nav.all) && 0 < k
    ensures var r := IterNext(steps, nav, k);
            WellFormed(steps, r) && r.all[r.activeStep.value].active.Num?
  {
    IterNextWellFormed(steps, sizes, nav, k - 1);
    NextRank(steps, sizes, IterNext(steps, nav, k - 1));
  }

  /**
   * Within a full round, calling `next()` `k` times returns to the step and
   * position it started from exactly when `k` is the number of positions,
   * the sum over the steps of their substep counts plus one.
   */
  lemma NextPeriod<E>(steps: seq<string>, nav: Nav<E>, k: nat)
    requires WellFormed(steps, nav) && 0 < k <= Total(steps, nav.all)
    ensures var r := IterNext(steps, nav, k);
            WellFormed(steps, r) &&
            (SamePosition(r, nav) <==> k == Total(steps, nav.all))
  {
    var sizes := Shape(steps, nav.all);
    RankBounds(steps, sizes, nav);
    IterNextRank(steps, sizes, nav, k);
    RankInjective(steps, sizes, IterNext(steps, nav, k), nav);
  }

  /**
   * A full round of the positions brings `next()` back to the starting step
   * at the starting position, now stored as a number.
   */
  lemma NextCycle<E>(steps: seq<string>, nav: Nav<E>)
    requires WellFormed(steps, nav)
    ensures var r := IterNext(steps, nav, Total(steps, nav.all));
            r.activeStep == nav.activeStep &&
            r.all[r.activeStep.value].active == Num(Position(nav))
  {
    var sizes, total := Shape(steps, nav.all), Total(steps, nav.all);
    RankBounds(steps, sizes, nav);
    NextPeriod(steps, nav, total);
    IterNextNumeric(steps, sizes, nav, total);
  }

  /** The replica loop run for a full round of the positions is back where it started. */
  lemma ReplayCycle<E>(steps: seq<string>, nav: Nav<E>)
    requires WellFormed(steps, nav)
    ensures var r := Replay(steps, nav, Total(steps, nav.all));
            r.activeStep == nav.activeStep &&
            r.all[r.activeStep.value].active == Num(Position(nav))
  {
    ReplayIsIteratedNext(steps, nav, Total(steps, nav.all));
    NextCycle(steps, nav);
  }

  /** Unless the presentation is a lone step with one substep, `prev()` right after `next()` restores the step and position. */
  lemma PrevAfterNext<E>(steps: seq<string>, nav: Nav<E>)
    requires WellFormed(steps, nav)
    requires |steps| != 1 || |nav.all[steps[0]].substeps| != 1
    ensures var r := PrevTransition(steps, NextTransition(steps, nav).nav).nav;
            r.activeStep == nav.activeStep &&
            r.all[r.activeStep.value].active == Num(Position(nav))
  {
    var sizes := Shape(steps, nav.all);
    var n1 := NextTransition(steps, nav).nav;
    NextRank(steps, sizes, nav);
    NextFrame(steps, nav);
    PrevRank(steps, sizes, n1);
    RankBounds(steps, sizes, nav);
    RankInjective(steps, sizes, PrevTransition(steps, n1).nav, nav);
  }

  /** Unless the presentation is a lone step with one substep, `next()` right after `prev()` restores the step and position. */
  lemma NextAfterPrev<E>(steps: seq<string>, nav: Nav<E>)
    requires WellFormed(steps, nav)
    requires |steps| != 1 || |nav.all[steps[0]].substeps| != 1
    ensures var r := NextTransition(steps, PrevTransition(steps, nav).nav).nav;
            r.activeStep == nav.activeStep &&
            r.all[r.activeStep.value].active == Num(Position(nav))
  {
    var sizes := Shape(steps, nav.all);
    var p1 := PrevTransition(steps, nav).nav;
    PrevRank(steps, sizes, nav);
    NextRank(steps, sizes, p1);
    RankBounds(steps, sizes, nav);
    RankInjective(steps, sizes, NextTransition(steps, p1).nav, nav);
  }

  /**
   * The case the `prev` lemmas above exclude: with a single step holding
   * exactly one substep, `prev()` from position -1 calls `goto(step, 0)`,
   * which the resize check (`!subIdx`) turns into a mere re-render, and the
   * following `next()` moves on to position 0 instead of back to -1.
   */
  lemma PrevStallsOnOneStep<E>(steps: seq<string>, nav: Nav<E>)
    requires WellFormed(steps, nav) && |steps| == 1
    requires |nav.all[steps[0]].substeps| == 1 && Position(nav) == -1
    ensures PrevTransition(steps, nav) == Transition(Rerendered(nav.activeStep), nav)
    ensures var r := NextTransition(steps, PrevTransition(steps, nav).nav).nav;
            r.activeStep == nav.activeStep && r.all[r.activeStep.value].active == Num(0)
  {
  }
}
