/** The adaptive bitrate controller: hysteresis over the steps of the ladder. The
    stress of the path is an input of every update; doubles are exact reals. */
module Abr {
  import opened AbrLadder

  const IMPROVE_HOLDOFF: nat := 6
  const DEGRADE_HOLDOFF: nat := 1
  const RES_DEGRADE_HOLDOFF: nat := 0
  const RES_IMPROVE_HOLDOFF: nat := 24
  const RES_STABLE_DWELL: nat := 20
  const MIN_LEVEL_DWELL: nat := 4
  const DEGRADE_DWELL: nat := 1
  const RES_DEGRADE_DWELL: nat := 0
  const HYSTERESIS: real := 0.04

  const LEVEL_ENDS: seq<real> := [0.12, 0.28, 0.42, 0.58, 0.74, 1.0]
  const LEVEL_STARTS: seq<real> := [0.0, 0.12, 0.28, 0.42, 0.58, 0.74]

  // ----- Steps -----

  /** A substep changes something only if one of its dimensions adapts. */
  predicate Effective(f: Flags, step: nat) {
    step % 3 == 0 || f.bitrate || (step % 3 == 2 && f.framerate)
  }

  /** The next effective step below in quality; the last step when there is none. */
  function NextDegrade(f: Flags, step: nat): (r: nat)
    requires step < STEPS
    ensures r < STEPS && (step < STEPS - 1 ==> step < r)
    ensures (Effective(f, r) || r == STEPS - 1) && forall k | step < k < r :: !Effective(f, k)
    decreases STEPS - step
  {
    if step + 1 >= STEPS then STEPS - 1
    else if Effective(f, step + 1) then step + 1
    else NextDegrade(f, step + 1)
  }

  /** The next effective step above in quality; step 0 when there is none. */
  function NextImprove(f: Flags, step: nat): (r: nat)
    ensures step > 0 ==> r < step
    ensures Effective(f, r) && forall k | r < k < step :: !Effective(f, k)
  {
    if step == 0 then 0
    else if Effective(f, step - 1) then step - 1
    else NextImprove(f, step - 1)
  }

  /** The nearest effective step of the same level, not below in quality. */
  function Normalize(f: Flags, step: nat): (r: nat)
    ensures r <= step && r / 3 == step / 3 && Effective(f, r)
  {
    if Effective(f, step) then step else Normalize(f, step - 1)
  }

  method NextDegradeStep(f: Flags, step: nat) returns (r: nat)
    requires step < STEPS
    ensures r == NextDegrade(f, step)
  {
    var next := step + 1;
    while next < STEPS
      invariant step < next <= STEPS && NextDegrade(f, step) == NextDegrade(f, next - 1)
    {
      if Effective(f, next) {
        return next;
      }
      next := next + 1;
    }
    return STEPS - 1;
  }

  method NextImproveStep(f: Flags, step: nat) returns (r: nat)
    ensures r == NextImprove(f, step)
  {
    var next: int := step - 1;
    while next >= 0
      invariant -1 <= next < step && NextImprove(f, step) == NextImprove(f, next + 1)
    {
      if Effective(f, next) {
        return next;
      }
      next := next - 1;
    }
    return 0;
  }

  /** The step on the ladder that is nearest to `step`. */
  function OnLadder(step: int): (r: nat)
    ensures r < STEPS
  {
    if step < 0 then 0 else if step >= STEPS then STEPS - 1 else step
  }

  method NormalizeStep(f: Flags, step: int) returns (r: nat)
    ensures r == Normalize(f, OnLadder(step))
  {
    if step < 0 {
      return 0;
    }
    var bounded := if step >= STEPS then STEPS - 1 else step;
    var level, substep := bounded / SUBSTEPS, bounded % SUBSTEPS;
    while substep > 0 && !Effective(f, level * SUBSTEPS + substep)
      invariant 0 <= substep < 3 && Normalize(f, bounded) == Normalize(f, level * SUBSTEPS + substep)
    {
      substep := substep - 1;
    }
    return level * SUBSTEPS + substep;
  }

  // ----- Targets -----

  /** The stress below which a step is good enough; the margin makes room for both directions. */
  function Threshold(level: nat, substep: nat, margin: real, worsen: bool): real
    requires level < LEVELS
  {
    var plain := LEVEL_STARTS[level] + (LEVEL_ENDS[level] - LEVEL_STARTS[level]) * (substep + 1) as real / 3.0;
    if worsen then plain + margin / 3.0 else plain - margin / 3.0
  }

  predicate GoodEnough(k: nat, stress: real, margin: real, worsen: bool)
    requires k < STEPS
  {
    stress < Threshold(k / SUBSTEPS, k % SUBSTEPS, margin, worsen)
  }

  /** The first step from `k` on that is good enough; the last step when none is. */
  function FirstFrom(k: nat, stress: real, margin: real, worsen: bool): (step: nat)
    requires k < STEPS
    ensures k <= step < STEPS
    ensures forall i | k <= i < step :: !GoodEnough(i, stress, margin, worsen)
    ensures step < STEPS - 1 ==> GoodEnough(step, stress, margin, worsen)
    decreases STEPS - k
  {
    if k == STEPS - 1 || GoodEnough(k, stress, margin, worsen) then k else FirstFrom(k + 1, stress, margin, worsen)
  }

  function Target(stress: real, worsen: bool): (step: nat)
    ensures step < STEPS
  {
    FirstFrom(0, stress, HYSTERESIS, worsen)
  }

  /** The search, one threshold at a time; behind the last step stands the last step. */
  function SearchFrom(k: nat, stress: real, margin: real, worsen: bool): nat
    requires k <= STEPS
  {
    if k == STEPS then STEPS - 1 else FirstFrom(k, stress, margin, worsen)
  }

  lemma SearchStep(level: nat, substep: nat, stress: real, margin: real, worsen: bool)
    requires level < LEVELS && substep < SUBSTEPS
    ensures var k := level * SUBSTEPS + substep;
            && k < STEPS
            && SearchFrom(k, stress, margin, worsen)
               == if stress < Threshold(level, substep, margin, worsen) then k
                  else SearchFrom(k + 1, stress, margin, worsen)
  {
    hide Threshold;
    var k := level * SUBSTEPS + substep;
    assert k / SUBSTEPS == level && k % SUBSTEPS == substep;
  }

  lemma SearchEnds(stress: real, margin: real, worsen: bool)
    ensures SearchFrom(0, stress, margin, worsen) == FirstFrom(0, stress, margin, worsen)
    ensures SearchFrom(STEPS, stress, margin, worsen) == STEPS - 1
  {
  }

  method StressToStep(stress: real, margin: real, worsen: bool) returns (step: nat)
    ensures step == FirstFrom(0, stress, margin, worsen)
  {
    SearchEnds(stress, margin, worsen);
    hide SearchFrom, FirstFrom, Threshold;
    for level := 0 to LEVELS
      invariant SearchFrom(0, stress, margin, worsen) == SearchFrom(level * SUBSTEPS, stress, margin, worsen)
    {
      for substep := 0 to SUBSTEPS
        invariant SearchFrom(0, stress, margin, worsen)
               == SearchFrom(level * SUBSTEPS + substep, stress, margin, worsen)
      {
        SearchStep(level, substep, stress, margin, worsen);
        if stress < Threshold(level, substep, margin, worsen) {
          return level * SUBSTEPS + substep;
        }
      }
    }
    return STEPS - 1;
  }

  /** More stress never asks for better quality. */
  lemma TargetMonotone(a: real, b: real, worsen: bool)
    requires a <= b
    ensures Target(a, worsen) <= Target(b, worsen)
  {
    var i, j := Target(a, worsen), Target(b, worsen);
    assert GoodEnough(j, b, HYSTERESIS, worsen) ==> GoodEnough(j, a, HYSTERESIS, worsen);
  }

  /** The two targets leave a band, so the controller never wants to go both ways. */
  lemma TargetsOrdered(stress: real)
    ensures Target(stress, true) <= Target(stress, false)
  {
    var i, j := Target(stress, true), Target(stress, false);
    assert GoodEnough(j, stress, HYSTERESIS, false) ==> GoodEnough(j, stress, HYSTERESIS, true);
  }

  /** Which step a stress asks for, in 300ths: the levels end at 0.12, 0.28, 0.42, 0.58, 0.74 and 1,
      each is cut in three, and the margin of 0.04 moves every edge by a third of it. */
  lemma TargetEdges(stress: real, worsen: bool, k: nat)
    requires k < 18
    ensures var moved := 300.0 * stress + if worsen then -4.0 else 4.0;
            Target(stress, worsen) == k <==> (k == 0 || Edge(k - 1) <= moved) && (k == 17 || moved < Edge(k))
  {
    hide FirstFrom, GoodEnough;
    var t := Target(stress, worsen);
    EdgesRise(if t < k then t else k, if t < k then k else t);
    EdgeAt(stress, worsen, t);
    EdgeAt(stress, worsen, k);
    if t > 0 {
      EdgeAt(stress, worsen, t - 1);
    }
    if k > 0 {
      EdgeAt(stress, worsen, k - 1);
      EdgesRise(if t < k - 1 then t else k - 1, if t < k - 1 then k - 1 else t);
    }
    if t > 0 {
      EdgesRise(if t - 1 < k then t - 1 else k, if t - 1 < k then k else t - 1);
    }
  }

  /** The upper edge of step `k`, in 300ths, before the margin. */
  function Edge(k: nat): real
    requires k < 18
  {
    [12.0, 24.0, 36.0, 52.0, 68.0, 84.0, 98.0, 112.0, 126.0,
     142.0, 158.0, 174.0, 190.0, 206.0, 222.0, 248.0, 274.0, 300.0][k]
  }

  lemma EdgeAt(stress: real, worsen: bool, k: nat)
    requires k < 18
    ensures GoodEnough(k, stress, HYSTERESIS, worsen)
       <==> 300.0 * stress + (if worsen then -4.0 else 4.0) < Edge(k)
  {
    hide GoodEnough;
    GoodEnoughAt(k / 3, k % 3, stress, worsen);
    assert k == k / 3 * 3 + k % 3;
  }

  lemma GoodEnoughAt(level: nat, substep: nat, stress: real, worsen: bool)
    requires level < 6 && substep < 3
    ensures GoodEnough(3 * level + substep, stress, HYSTERESIS, worsen)
       <==> 300.0 * stress + (if worsen then -4.0 else 4.0) < Edge(3 * level + substep)
  {
    assert (3 * level + substep) / SUBSTEPS == level && (3 * level + substep) % SUBSTEPS == substep;
    assert 300.0 * Threshold(level, substep, HYSTERESIS, worsen)
        == Edge(3 * level + substep) - if worsen then -4.0 else 4.0 by {
      ThresholdAt(level, substep, worsen);
    }
  }

  lemma ThresholdAt(level: nat, substep: nat, worsen: bool)
    requires level < 6 && substep < 3
    ensures 300.0 * Threshold(level, substep, HYSTERESIS, worsen)
         == Edge(3 * level + substep) - if worsen then -4.0 else 4.0
  {
    assert substep == 0 || substep == 1 || substep == 2;
    assert level == 0 || level == 1 || level == 2 || level == 3 || level == 4 || level == 5;
  }

  lemma EdgesRise(i: nat, j: nat)
    requires i <= j < 18
    ensures Edge(i) <= Edge(j) && (i < j ==> Edge(i) < Edge(j))
    decreases j
  {
    if i < j {
      EdgesRise(i, j - 1);
    }
  }

  /** Every step is what some stress asks for, in either direction. */
  lemma EveryStepIsATarget(k: nat, worsen: bool)
    requires k < 18
    ensures exists stress | 0.0 <= stress <= 1.0 :: Target(stress, worsen) == k
  {
    var stress := if k == 17 then 1.0 else (Edge(k) - 1.0 + if worsen then 4.0 else -4.0) / 300.0;
    TargetEdges(stress, worsen, k);
    EdgesRise(0, k);
    EdgesRise(k, 17);
    if k > 0 {
      EdgeGap(k);
    }
    assert Target(stress, worsen) == k;
  }

  lemma EdgeGap(k: nat)
    requires 0 < k < 18
    ensures Edge(k - 1) + 12.0 <= Edge(k)
  {
  }

  // ----- One update -----

  datatype State = State(step: nat, improveHold: nat, degradeHold: nat, resHold: nat, dwell: nat, stable: nat,
                         generation: nat)

  /** The counters' ranges, which every update keeps. */
  predicate Inv(s: State) {
    s.step < STEPS && s.improveHold <= IMPROVE_HOLDOFF && s.degradeHold <= DEGRADE_HOLDOFF
    && s.resHold <= RES_IMPROVE_HOLDOFF && s.dwell <= MIN_LEVEL_DWELL
  }

  datatype Decision =
    | Dwell
    | DegradeWait
    | Degrade(next: nat)
    | StableWait
    | ResWait
    | ResUpgrade(next: nat)
    | ImproveWait
    | Improve(next: nat)
    | Steady

  /** What an update aims at: degrade towards `degrade` from above it, improve towards `improve` from below it. */
  datatype Aim = Aim(degrade: nat, improve: nat)
  {
    predicate Valid() {
      degrade <= improve < STEPS
    }

    predicate Holds(step: nat) {
      degrade <= step <= improve
    }
  }

  function AimAt(stress: real): (a: Aim)
    ensures a.Valid()
  {
    TargetsOrdered(stress);
    Aim(Target(stress, true), Target(stress, false))
  }

  function StableAfter(s: State, a: Aim): nat {
    if a.degrade <= s.step then s.stable + 1 else 0
  }

  function DwellRequired(f: Flags, s: State, a: Aim): nat {
    if a.degrade > s.step then
      if a.degrade / 3 > s.step / 3 && f.resolution then RES_DEGRADE_DWELL else DEGRADE_DWELL
    else MIN_LEVEL_DWELL
  }

  /** Where a degrade goes: straight to the target when that is on a lower level. */
  function DegradeTo(f: Flags, s: State, a: Aim): (next: nat)
    requires s.step < STEPS
  {
    if a.degrade / 3 > s.step / 3 then Normalize(f, a.degrade) else NextDegrade(f, s.step)
  }

  predicate RaisesResolution(f: Flags, from: nat, to: nat) {
    f.resolution && to / 3 < from / 3
  }

  function Decide(f: Flags, s: State, a: Aim): (d: Decision)
    requires s.step < STEPS
    ensures d == DegradeWait ==> s.degradeHold > 0
    ensures d == ResWait ==> s.resHold > 0
    ensures d == ImproveWait ==> s.improveHold > 0
  {
    if s.dwell < DwellRequired(f, s, a) then Dwell
    else if a.degrade > s.step then
      if s.degradeHold > 0 then DegradeWait else Degrade(DegradeTo(f, s, a))
    else if a.improve < s.step then
      var next := NextImprove(f, s.step);
      if RaisesResolution(f, s.step, next) then
        if StableAfter(s, a) < RES_STABLE_DWELL then StableWait
        else if s.resHold > 0 then ResWait
        else ResUpgrade(next)
      else if s.improveHold > 0 then ImproveWait
      else Improve(next)
    else Steady
  }

  /** Holdoff before a further degrade: none when this one lowers the resolution. */
  function DegradeHoldAfter(f: Flags, s: State, a: Aim): nat
    requires s.step < STEPS
  {
    var lower := a.degrade / 3 > s.step / 3 || NextDegrade(f, s.step) / 3 > s.step / 3;
    if f.resolution && lower then RES_DEGRADE_HOLDOFF else DEGRADE_HOLDOFF
  }

  /** A change of step; a change of level starts the stability count again. */
  function MoveTo(s: State, next: nat): State {
    s.(step := next, stable := if next / 3 != s.step / 3 then 0 else s.stable, dwell := 0,
       generation := s.generation + 1)
  }

  function Next(f: Flags, s: State, a: Aim): State
    requires s.step < STEPS
  {
    var t := s.(stable := StableAfter(s, a));
    match Decide(f, s, a)
    case Dwell => t.(dwell := s.dwell + 1)
    case DegradeWait => t.(degradeHold := s.degradeHold - 1)
    case Degrade(next) =>
      MoveTo(t, next).(degradeHold := DegradeHoldAfter(f, s, a), improveHold := IMPROVE_HOLDOFF,
                       resHold := RES_IMPROVE_HOLDOFF)
    case StableWait => t
    case ResWait => t.(resHold := s.resHold - 1)
    case ResUpgrade(next) =>
      MoveTo(t, next).(degradeHold := DEGRADE_HOLDOFF, improveHold := IMPROVE_HOLDOFF, resHold := RES_IMPROVE_HOLDOFF)
    case ImproveWait => t.(improveHold := s.improveHold - 1)
    case Improve(next) => MoveTo(t, next).(degradeHold := DEGRADE_HOLDOFF, improveHold := IMPROVE_HOLDOFF)
    case Steady => t.(improveHold := IMPROVE_HOLDOFF, degradeHold := DEGRADE_HOLDOFF)
  }

  /** Every executed degrade strictly lowers the quality step, every improvement strictly
      raises it, nothing else changes it, and the counters stay in range; under any flags. */
  lemma StrictProgress(f: Flags, s: State, a: Aim)
    requires Inv(s) && a.Valid()
    ensures Inv(Next(f, s, a))
    ensures var t := Next(f, s, a);
            match Decide(f, s, a)
            case Degrade(next) => t.step == next > s.step && a.degrade > s.step
            case ResUpgrade(next) => t.step == next < s.step && next / 3 < s.step / 3 && a.improve < s.step
            case Improve(next) => t.step == next < s.step && a.improve < s.step
            case _ => t.step == s.step && t.generation == s.generation
  {
  }

  // ----- Runs -----

  /** The state after the first `i` updates, under the stress each of them measures. */
  function StateAt(f: Flags, s: State, stress: nat -> real, i: nat): (t: State)
    requires Inv(s)
    ensures Inv(t)
  {
    if i == 0 then s
    else
      var before := StateAt(f, s, stress, i - 1);
      StrictProgress(f, before, AimAt(stress(i - 1)));
      Next(f, before, AimAt(stress(i - 1)))
  }

  function DecisionAt(f: Flags, s: State, stress: nat -> real, i: nat): Decision
    requires Inv(s)
  {
    Decide(f, StateAt(f, s, stress, i), AimAt(stress(i)))
  }

  predicate IsMove(d: Decision) {
    d.Degrade? || d.ResUpgrade? || d.Improve?
  }

  /** `n` updates after a degrade or resolution upgrade, the counters show no more than `n` updates. */
  predicate SinceResChange(s: State, n: nat) {
    s.stable <= n && (s.resHold < RES_IMPROVE_HOLDOFF ==> n + s.resHold >= 43)
  }

  /** `n` updates after any change of step, the counters show no more than `n` updates. */
  predicate SinceChange(s: State, n: nat) {
    n + s.improveHold >= s.dwell + 6 && (s.improveHold < IMPROVE_HOLDOFF ==> s.dwell == MIN_LEVEL_DWELL)
  }

  lemma AgeStep(f: Flags, s: State, a: Aim, n: nat)
    requires Inv(s) && a.Valid()
    ensures SinceResChange(s, n) ==> SinceResChange(Next(f, s, a), n + 1)
    ensures SinceChange(s, n) ==> SinceChange(Next(f, s, a), n + 1)
    ensures Decide(f, s, a).Degrade? || Decide(f, s, a).ResUpgrade? ==> SinceResChange(Next(f, s, a), 0)
    ensures IsMove(Decide(f, s, a)) ==> SinceChange(Next(f, s, a), 0)
    ensures SinceResChange(s, n) && Decide(f, s, a).ResUpgrade? ==> n >= 43
    ensures SinceChange(s, n) && Decide(f, s, a).Improve? ==> n >= 10
  {
    StrictProgress(f, s, a);
    hide NextDegrade, NextImprove, Normalize;
  }

  lemma {:induction false} Ages(f: Flags, s: State, stress: nat -> real, i: nat, j: nat)
    requires Inv(s) && i < j
    ensures DecisionAt(f, s, stress, i).Degrade? || DecisionAt(f, s, stress, i).ResUpgrade? ==>
              SinceResChange(StateAt(f, s, stress, j), j - i - 1)
    ensures IsMove(DecisionAt(f, s, stress, i)) ==> SinceChange(StateAt(f, s, stress, j), j - i - 1)
    decreases j
  {
    hide Next, Decide, AimAt, SinceResChange, SinceChange;
    var t := StateAt(f, s, stress, j - 1);
    AgeStep(f, t, AimAt(stress(j - 1)), if j - 1 == i then 0 else j - i - 2);
    if i < j - 1 {
      Ages(f, s, stress, i, j - 1);
    }
  }

  /** Over every stress sequence: a resolution upgrade comes at least 44 updates after the last degrade or
      resolution upgrade, and any other improvement at least 11 updates after any change. */
  lemma RateLimits(f: Flags, s: State, stress: nat -> real, i: nat, j: nat)
    requires Inv(s) && i < j
    ensures var d, e := DecisionAt(f, s, stress, i), DecisionAt(f, s, stress, j);
            && ((d.Degrade? || d.ResUpgrade?) && e.ResUpgrade? ==> j - i >= 44)
            && (IsMove(d) && e.Improve? ==> j - i >= 11)
  {
    hide Next, Decide, AimAt, SinceResChange, SinceChange;
    Ages(f, s, stress, i, j);
    AgeStep(f, StateAt(f, s, stress, j), AimAt(stress(j)), j - i - 1);
  }

  // ----- Moves, and how soon they come -----

  /** A substep has an effect if the dimension it lowers adapts; the third counts the bitrate too. */
  lemma EffectiveSubsteps(f: Flags, level: nat)
    ensures Effective(f, 3 * level)
    ensures Effective(f, 3 * level + 1) <==> f.bitrate
    ensures Effective(f, 3 * level + 2) <==> f.bitrate || f.framerate
  {
    assert (3 * level) % 3 == 0 && (3 * level + 1) % 3 == 1 && (3 * level + 2) % 3 == 2;
  }

  /** A step without an effect has the configuration of the one before it, on every ladder. */
  lemma IneffectiveIsIdle(levels: seq<Config>, f: Flags, step: nat)
    requires |levels| == LEVELS && step < STEPS && !Effective(f, step)
    ensures step > 0 && StepConfig(levels, f, step) == StepConfig(levels, f, step - 1)
  {
    assert step / 3 == (step - 1) / 3 && (step - 1) % 3 == step % 3 - 1;
  }

  /** Where a degrade goes: to a lower level at once, on the step nearest to the target that has an
      effect; within the level, to the next step that has one. */
  lemma DegradeLands(f: Flags, s: State, a: Aim)
    requires Inv(s) && a.Valid() && Decide(f, s, a).Degrade?
    ensures var step := Next(f, s, a).step;
            if a.degrade / 3 > s.step / 3 then
              && step <= a.degrade && step / 3 == a.degrade / 3 && Effective(f, step)
              && forall k | step < k <= a.degrade :: !Effective(f, k)
            else
              && step > s.step && (Effective(f, step) || step == 17)
              && forall k | s.step < k < step :: !Effective(f, k)
  {
    hide Effective;
    if a.degrade / 3 > s.step / 3 {
      NormalizeNearest(f, a.degrade);
    }
  }

  lemma {:induction false} NormalizeNearest(f: Flags, step: nat)
    ensures forall k | Normalize(f, step) < k <= step :: !Effective(f, k)
  {
    hide Effective;
    if !Effective(f, step) {
      assert step > 0 by {
        EffectiveSubsteps(f, 0);
      }
      NormalizeNearest(f, step - 1);
    }
  }

  /** An improvement goes to the nearest better step that has an effect. */
  lemma ImproveLands(f: Flags, s: State, a: Aim)
    requires Inv(s) && a.Valid() && (Decide(f, s, a).Improve? || Decide(f, s, a).ResUpgrade?)
    ensures var step := Next(f, s, a).step;
            step < s.step && Effective(f, step) && forall k | step < k < s.step :: !Effective(f, k)
  {
    hide Effective;
  }

  /** The counters a move leaves behind. */
  lemma AfterMove(f: Flags, s: State, a: Aim)
    requires Inv(s) && a.Valid() && IsMove(Decide(f, s, a))
    ensures var t := Next(f, s, a);
            && t.dwell == 0 && t.improveHold == 6 && t.generation == s.generation + 1
            && (t.step / 3 != s.step / 3 ==> t.stable == 0)
            && match Decide(f, s, a)
               case Degrade(next) =>
                 t.resHold == 24 && t.degradeHold == if f.resolution && next / 3 > s.step / 3 then 0 else 1
               case ResUpgrade(_) => t.resHold == 24 && t.degradeHold == 1
               case _ => t.resHold == s.resHold && t.degradeHold == 1
  {
    if Decide(f, s, a).Degrade? {
      hide Effective;
      DegradeLands(f, s, a);
    }
  }

  /** Inside the band, once the dwell is over, both holdoffs start again. */
  lemma RestsInBand(f: Flags, s: State, a: Aim)
    requires Inv(s) && a.Valid() && a.degrade <= s.step <= a.improve
    ensures Next(f, s, a) == if s.dwell < 4 then s.(dwell := s.dwell + 1, stable := s.stable + 1)
                             else s.(improveHold := 6, degradeHold := 1, stable := s.stable + 1)
  {
  }

  /** The stability count: the updates in a row that found no reason to degrade, since the level last changed. */
  lemma StabilityCounts(f: Flags, s: State, a: Aim)
    requires Inv(s) && a.Valid()
    ensures var t := Next(f, s, a);
            t.stable == if t.step / 3 != s.step / 3 || a.degrade > s.step then 0 else s.stable + 1
  {
    hide NextDegrade, NextImprove, Normalize;
  }

  /** How long a degrade takes after a move: one update of dwell, unless it is to a lower level and the
      resolution adapts, and one of holdoff, unless the move before it dropped the resolution. */
  lemma DegradeTiming(f: Flags, s: State, a: Aim)
    requires Inv(s) && a.Valid() && a.degrade > s.step && s.dwell == 0
    ensures var t := Next(f, s, a);
            var u := Next(f, t, a);
            if a.degrade / 3 > s.step / 3 && f.resolution then
              if s.degradeHold == 0 then Decide(f, s, a).Degrade?
              else t.step == s.step && Decide(f, t, a).Degrade?
            else if s.degradeHold == 0 then t.step == s.step && Decide(f, t, a).Degrade?
            else t.step == s.step && u.step == s.step && Decide(f, u, a).Degrade?
  {
    hide NextDegrade, Normalize;
  }

  /** Ten updates after a move, under steady stress, an improvement within the level comes with the next one. */
  lemma ImproveTiming(f: Flags, s: State, stress: nat -> real, x: real)
    requires Inv(s) && (forall i :: stress(i) == x) && AimAt(x).improve < s.step
    requires s.dwell == 0 && s.improveHold == 6
    requires !(f.resolution && NextImprove(f, s.step) / 3 < s.step / 3)
    ensures forall n | 0 <= n <= 10 :: StateAt(f, s, stress, n).step == s.step
    ensures StateAt(f, s, stress, 11).step == NextImprove(f, s.step)
  {
    hide StateAt, NextImprove, AimAt, Next;
    forall n | 0 <= n <= 10
      ensures StateAt(f, s, stress, n).step == s.step
    {
      ImproveWaits(f, s, stress, x, n);
    }
    ImproveWaits(f, s, stress, x, 10);
    var t := StateAt(f, s, stress, 10);
    StateStep(f, s, stress, 10);
    assert Decide(f, t, AimAt(x)) == Improve(NextImprove(f, s.step));
    Moves(f, t, AimAt(x));
  }

  lemma Moves(f: Flags, s: State, a: Aim)
    requires s.step < STEPS
    ensures var d := Decide(f, s, a);
            && (d.Improve? ==> Next(f, s, a).step == d.next)
            && (d.ResUpgrade? ==> Next(f, s, a).step == d.next)
  {
    hide Decide;
  }

  lemma StateStep(f: Flags, s: State, stress: nat -> real, n: nat)
    requires Inv(s)
    ensures StateAt(f, s, stress, n + 1) == Next(f, StateAt(f, s, stress, n), AimAt(stress(n)))
  {
    hide Next, AimAt;
  }

  lemma {:induction false} ImproveWaits(f: Flags, s: State, stress: nat -> real, x: real, n: nat)
    requires Inv(s) && (forall i :: stress(i) == x) && AimAt(x).improve < s.step && n <= 10
    requires s.dwell == 0 && s.improveHold == 6
    requires !RaisesResolution(f, s.step, NextImprove(f, s.step))
    ensures var t := StateAt(f, s, stress, n);
            && t.step == s.step && t.dwell == (if n < 4 then n else 4)
            && t.improveHold == if n < 4 then 6 else 10 - n
  {
    if n > 0 {
      ImproveWaits(f, s, stress, x, n - 1);
      StateStep(f, s, stress, n - 1);
      hide StateAt, NextImprove, AimAt, RaisesResolution;
      var t := StateAt(f, s, stress, n - 1);
      assert Decide(f, t, AimAt(x)) == if n <= 4 then Dwell else ImproveWait;
    }
  }

  /** Forty-three updates after a degrade or resolution upgrade, under steady stress, the next
      resolution upgrade comes with the next one. */
  lemma ResUpgradeTiming(f: Flags, s: State, stress: nat -> real, x: real)
    requires Inv(s) && (forall i :: stress(i) == x) && AimAt(x).improve < s.step
    requires s.dwell == 0 && s.resHold == 24 && s.stable == 0
    requires f.resolution && NextImprove(f, s.step) / 3 < s.step / 3
    ensures forall n | 0 <= n <= 43 :: StateAt(f, s, stress, n).step == s.step
    ensures StateAt(f, s, stress, 44).step == NextImprove(f, s.step)
  {
    hide StateAt, NextImprove, AimAt, Next;
    forall n | 0 <= n <= 43
      ensures StateAt(f, s, stress, n).step == s.step
    {
      ResUpgradeWaits(f, s, stress, x, n);
    }
    ResUpgradeWaits(f, s, stress, x, 43);
    var t := StateAt(f, s, stress, 43);
    StateStep(f, s, stress, 43);
    assert Decide(f, t, AimAt(x)) == ResUpgrade(NextImprove(f, s.step));
    Moves(f, t, AimAt(x));
  }

  lemma {:induction false} ResUpgradeWaits(f: Flags, s: State, stress: nat -> real, x: real, n: nat)
    requires Inv(s) && (forall i :: stress(i) == x) && AimAt(x).improve < s.step && n <= 43
    requires s.dwell == 0 && s.resHold == 24 && s.stable == 0
    requires RaisesResolution(f, s.step, NextImprove(f, s.step))
    ensures var t := StateAt(f, s, stress, n);
            && t.step == s.step && t.stable == n && t.dwell == (if n < 4 then n else 4)
            && t.resHold == if n < 20 then 24 else 43 - n
  {
    if n > 0 {
      ResUpgradeWaits(f, s, stress, x, n - 1);
      StateStep(f, s, stress, n - 1);
      hide StateAt, NextImprove, AimAt, RaisesResolution;
      var t := StateAt(f, s, stress, n - 1);
      assert Decide(f, t, AimAt(x)) == if n <= 4 then Dwell else if n < 20 then StableWait else ResWait;
    }
  }

  // ----- Convergence -----

  /** A step the controller can come to rest on: an effective one, or the last. */
  predicate Landing(f: Flags, k: nat) {
    Effective(f, k) || k == STEPS - 1
  }

  /** Some step inside the band is one the controller can come to. */
  predicate HasLanding(f: Flags, a: Aim) {
    exists k | a.degrade <= k <= a.improve :: Landing(f, k)
  }

  function Distance(s: State, a: Aim): nat {
    if s.step < a.degrade then a.degrade - s.step else if s.step > a.improve then s.step - a.improve else 0
  }

  /** The updates left before the next change of step, at most. */
  function Patience(f: Flags, s: State, a: Aim): (n: nat)
    requires Inv(s)
    ensures 1 <= n <= 49
  {
    var dwell := if s.dwell < DwellRequired(f, s, a) then DwellRequired(f, s, a) - s.dwell else 0;
    if a.degrade > s.step then 1 + dwell + s.degradeHold
    else if RaisesResolution(f, s.step, NextImprove(f, s.step)) then
      1 + dwell + (if s.stable < RES_STABLE_DWELL then RES_STABLE_DWELL - s.stable else 0) + s.resHold
    else 1 + dwell + s.improveHold
  }

  /** Lexicographic: first the distance to the band, then the updates left before the next change. */
  function Potential(f: Flags, s: State, a: Aim): nat
    requires Inv(s)
  {
    if a.Holds(s.step) then 0 else 50 * Distance(s, a) + Patience(f, s, a)
  }

  lemma LandsWithin(f: Flags, s: State, a: Aim)
    requires Inv(s) && a.Valid() && HasLanding(f, a)
    ensures s.step < a.degrade ==> s.step < DegradeTo(f, s, a) <= a.improve
    ensures s.step > a.improve ==> a.degrade <= NextImprove(f, s.step) < s.step
  {
    var k :| a.degrade <= k <= a.improve && Landing(f, k);
  }

  /** Outside the band every update brings the controller nearer to it, without passing it. */
  lemma Approaches(f: Flags, s: State, a: Aim)
    requires Inv(s) && a.Valid() && HasLanding(f, a) && !a.Holds(s.step)
    ensures Inv(Next(f, s, a)) && Potential(f, Next(f, s, a), a) < Potential(f, s, a)
    ensures s.step < a.degrade ==> s.step <= Next(f, s, a).step <= a.improve
    ensures s.step > a.improve ==> a.degrade <= Next(f, s, a).step <= s.step
  {
    StrictProgress(f, s, a);
    LandsWithin(f, s, a);
    hide NextDegrade, NextImprove, Normalize, HasLanding, Effective;
  }

  /** Inside the band nothing changes. */
  lemma StaysInside(f: Flags, s: State, a: Aim)
    requires Inv(s) && a.Valid() && a.Holds(s.step)
    ensures Next(f, s, a).step == s.step && Next(f, s, a).generation == s.generation
  {
  }

  /** Without a step to land on, a controller outside the band stays outside. */
  lemma StaysOutside(f: Flags, s: State, a: Aim)
    requires Inv(s) && a.Valid() && !HasLanding(f, a) && !a.Holds(s.step)
    ensures !a.Holds(Next(f, s, a).step)
  {
    var t := Next(f, s, a);
    StrictProgress(f, s, a);
    assert t.step != s.step ==> Landing(f, t.step);
    assert a.Holds(t.step) && Landing(f, t.step) ==> HasLanding(f, a);
  }

  /** Under steady stress: on the way to the band the step moves one way only and does not pass the far end. */
  predicate OnTheWay(s: State, t: State, a: Aim) {
    && (s.step < a.degrade ==> s.step <= t.step <= a.improve)
    && (s.step > a.improve ==> a.degrade <= t.step <= s.step)
    && (a.Holds(s.step) ==> t.step == s.step && t.generation == s.generation)
  }

  lemma {:induction false} SteadyRun(f: Flags, s: State, stress: nat -> real, x: real, n: nat)
    requires Inv(s) && (forall i :: stress(i) == x) && (HasLanding(f, AimAt(x)) || AimAt(x).Holds(s.step))
    ensures var t := StateAt(f, s, stress, n);
            && OnTheWay(s, t, AimAt(x))
            && (AimAt(x).Holds(t.step) || Potential(f, t, AimAt(x)) + n <= Potential(f, s, AimAt(x)))
  {
    hide Next, AimAt, HasLanding, Potential;
    if n > 0 {
      SteadyRun(f, s, stress, x, n - 1);
      var t := StateAt(f, s, stress, n - 1);
      if AimAt(x).Holds(t.step) {
        StaysInside(f, t, AimAt(x));
      } else {
        Approaches(f, t, AimAt(x));
      }
    }
  }

  lemma {:induction false} NoRest(f: Flags, s: State, stress: nat -> real, x: real, n: nat)
    requires Inv(s) && (forall i :: stress(i) == x) && !HasLanding(f, AimAt(x)) && !AimAt(x).Holds(s.step)
    ensures !AimAt(x).Holds(StateAt(f, s, stress, n).step)
  {
    hide Next, AimAt, HasLanding;
    if n > 0 {
      NoRest(f, s, stress, x, n - 1);
      StaysOutside(f, StateAt(f, s, stress, n - 1), AimAt(x));
    }
  }

  lemma {:induction false} Rests(f: Flags, s: State, stress: nat -> real, x: real, n: nat, m: nat)
    requires Inv(s) && (forall i :: stress(i) == x) && n <= m && AimAt(x).Holds(StateAt(f, s, stress, n).step)
    ensures StateAt(f, s, stress, m).step == StateAt(f, s, stress, n).step
    ensures StateAt(f, s, stress, m).generation == StateAt(f, s, stress, n).generation
    decreases m
  {
    hide Next, AimAt;
    if n < m {
      Rests(f, s, stress, x, n, m - 1);
      StaysInside(f, StateAt(f, s, stress, m - 1), AimAt(x));
    }
  }

  /** No run needs more updates than this to come to rest. */
  const SETTLING_TIME: nat := 900

  /** Under steady stress the controller comes to rest in the band between its two targets if and only if
      it starts there or the band holds a step it can land on; then it does so within SETTLING_TIME
      updates, without turning round or passing the band, and changes nothing ever after. */
  lemma Convergence(f: Flags, s: State, stress: nat -> real, x: real)
    requires Inv(s) && forall i :: stress(i) == x
    ensures (exists n :: AimAt(x).Holds(StateAt(f, s, stress, n).step))
            <==> AimAt(x).Holds(s.step) || HasLanding(f, AimAt(x))
    ensures AimAt(x).Holds(s.step) || HasLanding(f, AimAt(x)) ==>
              forall n :: OnTheWay(s, StateAt(f, s, stress, n), AimAt(x))
    ensures AimAt(x).Holds(s.step) || HasLanding(f, AimAt(x)) ==>
              var rest := StateAt(f, s, stress, SETTLING_TIME);
              AimAt(x).Holds(rest.step)
              && forall n | n >= SETTLING_TIME ::
                   StateAt(f, s, stress, n).step == rest.step && StateAt(f, s, stress, n).generation == rest.generation
  {
    hide AimAt, HasLanding, Next, OnTheWay, StateAt;
    if AimAt(x).Holds(s.step) || HasLanding(f, AimAt(x)) {
      PotentialBound(f, s, AimAt(x));
      hide Potential;
      SteadyRun(f, s, stress, x, SETTLING_TIME);
      forall n: nat
        ensures OnTheWay(s, StateAt(f, s, stress, n), AimAt(x))
        ensures n >= SETTLING_TIME ==>
                  && StateAt(f, s, stress, n).step == StateAt(f, s, stress, SETTLING_TIME).step
                  && StateAt(f, s, stress, n).generation == StateAt(f, s, stress, SETTLING_TIME).generation
      {
        SteadyRun(f, s, stress, x, n);
        if n >= SETTLING_TIME {
          Rests(f, s, stress, x, SETTLING_TIME, n);
        }
      }
    } else {
      forall n: nat
        ensures !AimAt(x).Holds(StateAt(f, s, stress, n).step)
      {
        NoRest(f, s, stress, x, n);
      }
    }
  }

  lemma PotentialBound(f: Flags, s: State, a: Aim)
    requires Inv(s) && a.Valid()
    ensures Potential(f, s, a) < SETTLING_TIME
  {
    hide DwellRequired, NextImprove;
  }

  /** With bitrate adaptation on, every band has a step to land on, and neither target is passed:
      the controller comes to rest on the step of the band nearest to where it started. */
  lemma {:induction false} BitrateConverges(f: Flags, s: State, stress: nat -> real, x: real, n: nat)
    requires Inv(s) && (forall i :: stress(i) == x) && f.bitrate
    ensures HasLanding(f, AimAt(x))
    ensures var a, t := AimAt(x), StateAt(f, s, stress, n);
            && (s.step <= a.degrade ==> s.step <= t.step <= a.degrade)
            && (s.step >= a.improve ==> a.improve <= t.step <= s.step)
            && (n >= SETTLING_TIME ==> t.step == if s.step < a.degrade then a.degrade
                                                else if s.step > a.improve then a.improve else s.step)
  {
    hide AimAt, HasLanding, StateAt;
    BitrateLands(f, AimAt(x));
    BitrateOneWay(f, s, stress, x, n);
    if n >= SETTLING_TIME {
      Convergence(f, s, stress, x);
    }
  }

  lemma BitrateLands(f: Flags, a: Aim)
    requires f.bitrate && a.Valid()
    ensures HasLanding(f, a)
  {
    assert Landing(f, a.degrade);
  }

  lemma {:induction false} BitrateOneWay(f: Flags, s: State, stress: nat -> real, x: real, n: nat)
    requires Inv(s) && (forall i :: stress(i) == x) && f.bitrate
    ensures var a, t := AimAt(x), StateAt(f, s, stress, n);
            && (s.step <= a.degrade ==> s.step <= t.step <= a.degrade)
            && (s.step >= a.improve ==> a.improve <= t.step <= s.step)
            && (a.Holds(s.step) ==> t.step == s.step)
  {
    hide AimAt, Next;
    if n > 0 {
      BitrateOneWay(f, s, stress, x, n - 1);
      BitrateStep(f, StateAt(f, s, stress, n - 1), AimAt(x));
    }
  }

  lemma BitrateStep(f: Flags, s: State, a: Aim)
    requires Inv(s) && a.Valid() && f.bitrate
    ensures var t := Next(f, s, a);
            && (s.step < a.degrade ==> s.step <= t.step <= a.degrade)
            && (s.step > a.improve ==> a.improve <= t.step <= s.step)
            && (a.Holds(s.step) ==> t.step == s.step)
  {
    StrictProgress(f, s, a);
  }

  /** Without bitrate adaptation a band may hold no step to land on: under stress 0.06 a
      controller that adapts the rest never comes to rest. */
  lemma MayNeverRest(s: State, stress: nat -> real, n: nat)
    requires Inv(s) && s.step == 0 && forall i :: stress(i) == 0.06
    ensures !AimAt(0.06).Holds(StateAt(Flags(true, false, true), s, stress, n).step)
  {
    assert Target(0.06, true) == 1 && Target(0.06, false) == 1 by {
      TargetsAt();
    }
    assert forall k | 1 <= k <= 1 :: !Landing(Flags(true, false, true), k);
    NoRest(Flags(true, false, true), s, stress, 0.06, n);
  }

  lemma TargetsAt()
    ensures Target(0.06, true) == 1 && Target(0.06, false) == 1
  {
    assert !GoodEnough(0, 0.06, HYSTERESIS, true) && !GoodEnough(0, 0.06, HYSTERESIS, false);
    assert GoodEnough(1, 0.06, HYSTERESIS, true) && GoodEnough(1, 0.06, HYSTERESIS, false);
  }

  // ----- The controller -----

  class Controller {
    const levels: seq<Config>
    var flags: Flags
    var active: Config
    var activeLevel: nat
    var activeSubstep: nat
    var generation: nat
    var improveHoldoff: nat
    var degradeHoldoff: nat
    var resImproveHoldoff: nat
    var levelDwell: nat
    var levelStableDwell: nat

    function View(): State
      reads this
    {
      State(activeLevel * SUBSTEPS + activeSubstep, improveHoldoff, degradeHoldoff, resImproveHoldoff, levelDwell,
            levelStableDwell, generation)
    }

    /** The counters are in range, and what is active is what the ladder has for the step. */
    ghost predicate Valid()
      reads this
    {
      && |levels| == LEVELS && activeLevel < LEVELS && activeSubstep < SUBSTEPS && Inv(View())
      && active == StepConfig(levels, flags, View().step)
    }

    constructor (maxWidth: int, maxHeight: int, maxFps: int, maxVideo: int, maxAudio: int)
      ensures Valid() && flags == Flags(true, true, true)
      ensures var m := Maxima(Even(maxWidth), Even(maxHeight), if maxFps > 0 then maxFps else 1,
                              if maxVideo > 0 then maxVideo else 32000, if maxAudio > 0 then maxAudio else 8000);
              m.Valid() && levels == Ladder(m)
      ensures View() == State(0, IMPROVE_HOLDOFF, DEGRADE_HOLDOFF, RES_IMPROVE_HOLDOFF, MIN_LEVEL_DWELL, 0, 1)
    {
      var m := Maxima(Even(maxWidth), Even(maxHeight), if maxFps > 0 then maxFps else 1,
                      if maxVideo > 0 then maxVideo else 32000, if maxAudio > 0 then maxAudio else 8000);
      var built := BuildLadder(m);
      levels := built;
      flags := Flags(true, true, true);
      activeLevel, activeSubstep, generation := 0, 0, 1;
      active := StepConfig(built, Flags(true, true, true), 0);
      improveHoldoff, degradeHoldoff, resImproveHoldoff := IMPROVE_HOLDOFF, DEGRADE_HOLDOFF, RES_IMPROVE_HOLDOFF;
      levelDwell, levelStableDwell := MIN_LEVEL_DWELL, 0;
    }

    method SetAdaptFlags(f: Flags)
      requires Valid()
      modifies this`flags, this`active, this`generation
      ensures Valid() && flags == f && View() == old(View()).(generation := old(generation) + 1)
    {
      flags := f;
      active := StepConfig(levels, flags, activeLevel * SUBSTEPS + activeSubstep);
      generation := generation + 1;
    }

    method SetActiveStep(step: int)
      requires Valid()
      modifies this`active, this`activeLevel, this`activeSubstep, this`levelStableDwell
      ensures Valid()
      ensures var s, to := old(View()), OnLadder(step);
              View() == s.(step := to, stable := if to / 3 != s.step / 3 then 0 else s.stable)
    {
      hide StepConfig;
      var bounded := if step < 0 then 0 else if step >= STEPS then STEPS - 1 else step;
      var previous := activeLevel;
      activeLevel, activeSubstep := bounded / SUBSTEPS, bounded % SUBSTEPS;
      active := StepConfig(levels, flags, bounded);
      if activeLevel != previous {
        levelStableDwell := 0;
      }
    }

    /** Where a degrade would go, and the holdoff it would leave. */
    method PlanDegrade(a: Aim) returns (next: nat, holdoff: nat)
      requires Valid() && a.Valid()
      ensures next == DegradeTo(flags, View(), a) && holdoff == DegradeHoldAfter(flags, View(), a)
    {
      hide NextDegrade, Normalize, StepConfig;
      var step, level := activeLevel * SUBSTEPS + activeSubstep, activeLevel;
      assert step / SUBSTEPS == level;
      next := NextDegradeStep(flags, step);
      holdoff := DEGRADE_HOLDOFF;
      var lower := flags.resolution && next / SUBSTEPS > level;
      if a.degrade / SUBSTEPS > level {
        next := NormalizeStep(flags, a.degrade);
        if flags.resolution {
          holdoff := RES_DEGRADE_HOLDOFF;
        }
      } else if lower {
        holdoff := RES_DEGRADE_HOLDOFF;
      }
    }

    /** The degrade branch: the dwell is over, and the target is on a worse step. */
    method TryDegrade(a: Aim)
      requires Valid() && a.Valid() && View().step < a.degrade && levelDwell >= DwellRequired(flags, View(), a)
      modifies this
      ensures Valid() && flags == old(flags)
      ensures View() == Next(flags, old(View()).(stable := 0), a)
    {
      hide DegradeTo, DegradeHoldAfter, StepConfig, Next, Decide, Inv;
      DegradeInRange(flags, View(), a);
      DegradeIs(flags, View(), a);
      ForgetStability();
      var next, holdoff := PlanDegrade(a);
      if degradeHoldoff > 0 {
        WaitToDegrade();
      } else {
        Degrade(next, holdoff);
      }
    }

    method ForgetStability()
      requires Valid()
      modifies this`levelStableDwell
      ensures Valid() && View() == old(View()).(stable := 0)
    {
      hide StepConfig;
      levelStableDwell := 0;
    }

    method WaitToDegrade()
      requires Valid() && degradeHoldoff > 0
      modifies this`degradeHoldoff
      ensures Valid() && View() == old(View()).(degradeHold := old(degradeHoldoff) - 1)
    {
      hide StepConfig;
      degradeHoldoff := degradeHoldoff - 1;
    }

    method Degrade(next: nat, holdoff: nat)
      requires Valid() && next < STEPS && holdoff <= DEGRADE_HOLDOFF
      modifies this
      ensures Valid() && flags == old(flags)
      ensures View() == MoveTo(old(View()), next).(degradeHold := holdoff, improveHold := IMPROVE_HOLDOFF,
                                                   resHold := RES_IMPROVE_HOLDOFF)
    {
      hide StepConfig;
      SetActiveStep(next);
      degradeHoldoff := holdoff;
      improveHoldoff, resImproveHoldoff := IMPROVE_HOLDOFF, RES_IMPROVE_HOLDOFF;
      levelDwell, generation := 0, generation + 1;
    }

    /** The improve branch: the dwell is over, and the target is on a better step. */
    method TryImprove(a: Aim)
      requires Valid() && a.Valid() && a.improve < View().step && levelDwell >= MIN_LEVEL_DWELL && levelStableDwell > 0
      modifies this
      ensures Valid() && flags == old(flags)
      ensures View() == Next(flags, old(View()).(stable := old(levelStableDwell) - 1), a)
    {
      hide NextImprove, StepConfig, RaisesResolution, Next, Decide, Inv;
      ImproveIs(flags, View(), a);
      var step := activeLevel * SUBSTEPS + activeSubstep;
      var next := NextImproveStep(flags, step);
      if RaisesResolution(flags, step, next) {
        if levelStableDwell >= RES_STABLE_DWELL {
          if resImproveHoldoff > 0 {
            WaitForResolution();
          } else {
            Improve(next, true);
          }
        }
      } else if improveHoldoff > 0 {
        WaitForStep();
      } else {
        Improve(next, false);
      }
    }

    method WaitForResolution()
      requires Valid() && resImproveHoldoff > 0
      modifies this`resImproveHoldoff
      ensures Valid() && View() == old(View()).(resHold := old(resImproveHoldoff) - 1)
    {
      hide StepConfig;
      resImproveHoldoff := resImproveHoldoff - 1;
    }

    method WaitForStep()
      requires Valid() && improveHoldoff > 0
      modifies this`improveHoldoff
      ensures Valid() && View() == old(View()).(improveHold := old(improveHoldoff) - 1)
    {
      hide StepConfig;
      improveHoldoff := improveHoldoff - 1;
    }

    method Improve(next: nat, raisesResolution: bool)
      requires Valid() && next < STEPS
      modifies this
      ensures Valid() && flags == old(flags)
      ensures View() == MoveTo(old(View()), next).(
                          degradeHold := DEGRADE_HOLDOFF, improveHold := IMPROVE_HOLDOFF,
                          resHold := if raisesResolution then RES_IMPROVE_HOLDOFF else old(resImproveHoldoff))
    {
      hide StepConfig;
      SetActiveStep(next);
      if raisesResolution {
        resImproveHoldoff := RES_IMPROVE_HOLDOFF;
      }
      improveHoldoff, degradeHoldoff := IMPROVE_HOLDOFF, DEGRADE_HOLDOFF;
      levelDwell, generation := 0, generation + 1;
    }

    /** What an update does once its two targets are known. */
    method Act(a: Aim)
      requires Valid() && a.Valid()
      modifies this
      ensures Valid() && flags == old(flags)
      ensures View() == Next(flags, old(View()), a)
    {
      hide NextImprove, NextDegrade, Normalize, StepConfig, DegradeTo, DegradeHoldAfter, MoveTo, RaisesResolution;
      var step, level := activeLevel * SUBSTEPS + activeSubstep, activeLevel;
      StableForgotten(flags, View(), a);
      levelStableDwell := if a.degrade <= step then levelStableDwell + 1 else 0;
      var required := MIN_LEVEL_DWELL;
      if a.degrade > step {
        required := if a.degrade / SUBSTEPS > level && flags.resolution then RES_DEGRADE_DWELL else DEGRADE_DWELL;
      }
      if levelDwell < required {
        levelDwell := levelDwell + 1;
      } else if a.degrade > step {
        hide Next;
        TryDegrade(a);
      } else if a.improve < step {
        hide Next;
        TryImprove(a);
      } else {
        improveHoldoff, degradeHoldoff := IMPROVE_HOLDOFF, DEGRADE_HOLDOFF;
      }
    }

    method Update(stress: real)
      requires Valid()
      modifies this
      ensures Valid() && flags == old(flags)
      ensures View() == Next(flags, old(View()), AimAt(stress))
    {
      hide Next, Threshold, FirstFrom;
      TargetsOrdered(stress);
      var targetDegrade := StressToStep(stress, HYSTERESIS, true);
      var targetImprove := StressToStep(stress, HYSTERESIS, false);
      Act(Aim(targetDegrade, targetImprove));
    }
  }

  /** The degrade branch of an update, for a state whose stability count is forgotten already. */
  lemma DegradeIs(f: Flags, s: State, a: Aim)
    requires s.step < STEPS && a.Valid() && s.step < a.degrade && s.dwell >= DwellRequired(f, s, a)
    ensures var t := s.(stable := 0);
            Next(f, t, a)
            == if s.degradeHold > 0 then t.(degradeHold := s.degradeHold - 1)
               else MoveTo(t, DegradeTo(f, s, a)).(degradeHold := DegradeHoldAfter(f, s, a),
                                                   improveHold := IMPROVE_HOLDOFF, resHold := RES_IMPROVE_HOLDOFF)
  {
    hide NextDegrade, Normalize, MoveTo;
  }

  /** The improve branch of an update, for a state whose stability count has moved on already. */
  lemma ImproveIs(f: Flags, s: State, a: Aim)
    requires s.step < STEPS && a.Valid() && a.improve < s.step && s.dwell >= MIN_LEVEL_DWELL && s.stable > 0
    ensures var next, before := NextImprove(f, s.step), s.(stable := s.stable - 1);
            Next(f, before, a)
            == if RaisesResolution(f, s.step, next) then
                 if s.stable < RES_STABLE_DWELL then s
                 else if s.resHold > 0 then s.(resHold := s.resHold - 1)
                 else MoveTo(s, next).(degradeHold := DEGRADE_HOLDOFF, improveHold := IMPROVE_HOLDOFF,
                                       resHold := RES_IMPROVE_HOLDOFF)
               else if s.improveHold > 0 then s.(improveHold := s.improveHold - 1)
               else MoveTo(s, next).(degradeHold := DEGRADE_HOLDOFF, improveHold := IMPROVE_HOLDOFF)
  {
    hide NextImprove, RaisesResolution, MoveTo;
  }

  /** A degrade stays on the ladder, and does not depend on how long the level was stable. */
  lemma DegradeInRange(f: Flags, s: State, a: Aim)
    requires Inv(s) && a.Valid()
    ensures DegradeTo(f, s, a) < STEPS && DegradeHoldAfter(f, s, a) <= DEGRADE_HOLDOFF
    ensures DegradeTo(f, s, a) == DegradeTo(f, s.(stable := 0), a)
    ensures DegradeHoldAfter(f, s, a) == DegradeHoldAfter(f, s.(stable := 0), a)
  {
  }

  /** A step that is not good enough makes the update forget how long the level was stable. */
  lemma StableForgotten(f: Flags, s: State, a: Aim)
    requires Inv(s) && a.Valid()
    ensures s.step < a.degrade ==> Next(f, s.(stable := 0), a) == Next(f, s, a)
  {
    hide NextImprove, NextDegrade, Normalize;
  }

  method BuildLadder(m: Maxima) returns (levels: seq<Config>)
    requires m.Valid()
    ensures levels == Ladder(m)
  {
    hide Level;
    levels := [];
    for i := 0 to LEVELS
      invariant levels == Ladder(m)[..i]
    {
      levels := levels + [Level(m, i)];
    }
  }
}
