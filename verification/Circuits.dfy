/**
  The circuit breaker of one provider: what each call does to it, and what holds of it whatever
  calls were made in whatever order, completions of long-forgotten permits included.
*/
module Circuits {
  import opened Bytes
  import opened Words

  const SECOND: nat := 1_000_000_000
  const REST: nat := 60 * SECOND

  function SaturatingMul(a: nat, b: nat): nat {
    if a * b > MAX_U64 then MAX_U64 else a * b
  }

  datatype Phase = Closed | Open(since: nat) | HalfOpen(successes: nat, inFlight: bool)

  datatype Circuit = Circuit(
    phase: Phase, consecutiveSuccesses: nat, consecutiveFailures: nat, totalAttempts: nat, failedAttempts: nat)

  datatype Health = Healthy | Degraded | Unavailable

  const FRESH: Circuit := Circuit(Closed, 0, 0, 0, 0)

  /** `admit`: the new circuit and whether the permit is a half-open probe, or a refusal. */
  function Admit(c: Circuit, now: nat): Option<(Circuit, bool)> {
    match c.phase
    case Closed => Some((c, false))
    case Open(since) =>
      if now < since + REST then None else Some((c.(phase := HalfOpen(0, true)), true))
    case HalfOpen(successes, inFlight) =>
      if inFlight then None else Some((c.(phase := HalfOpen(successes, true)), true))
  }

  /** `success`, whoever holds the permit. */
  function Succeed(c: Circuit): (Circuit, Health) {
    var counted := c.(consecutiveSuccesses := c.consecutiveSuccesses + 1, consecutiveFailures := 0,
                      totalAttempts := c.totalAttempts + 1);
    if c.phase.HalfOpen? && c.phase.successes + 1 < 2
    then (counted.(phase := HalfOpen(c.phase.successes + 1, false)), Degraded)
    else (counted.(phase := Closed), Healthy)
  }

  predicate ErrorRateOpens(total: nat, failed: nat) {
    total >= 10 && SaturatingMul(failed, 10) >= SaturatingMul(total, 6)
  }

  /** `failure`, whoever holds the permit. */
  function Fail(c: Circuit, now: nat): (Circuit, Health) {
    var counted := c.(consecutiveSuccesses := 0, consecutiveFailures := c.consecutiveFailures + 1,
                      totalAttempts := c.totalAttempts + 1, failedAttempts := c.failedAttempts + 1);
    if c.phase.HalfOpen? || counted.consecutiveFailures >= 4
       || ErrorRateOpens(counted.totalAttempts, counted.failedAttempts)
    then (counted.(phase := Open(now)), Unavailable)
    else (counted, Degraded)
  }

  /** Dropping an unfinished permit; only a probe has something to give back. */
  function Release(c: Circuit, halfOpen: bool): Circuit {
    if halfOpen && c.phase.HalfOpen? then c.(phase := HalfOpen(c.phase.successes, false)) else c
  }

  /** What holds of a circuit after any calls in any order. */
  ghost predicate Sound(c: Circuit) {
    && c.consecutiveFailures <= c.failedAttempts <= c.totalAttempts
    && c.consecutiveSuccesses + c.failedAttempts <= c.totalAttempts
    && (c.consecutiveFailures == 0 || c.consecutiveSuccesses == 0)
    && (c.phase.HalfOpen? ==> c.phase.successes <= 1)
    && (c.phase.Closed? ==>
          && c.consecutiveFailures <= 3
          && (c.consecutiveFailures == 0 || c.totalAttempts < 10 || c.failedAttempts * 10 < c.totalAttempts * 6))
  }

  /** Saturation never hides that the failure rate is below 60 %. */
  lemma RateIsExact(total: nat, failed: nat)
    requires total >= 10 && !ErrorRateOpens(total, failed)
    ensures failed * 10 < total * 6
  {}

  lemma AdmitIsSound(c: Circuit, now: nat)
    requires Sound(c)
    ensures Admit(c, now).Some? ==> Sound(Admit(c, now).value.0)
    ensures Admit(c, now).Some? && Admit(c, now).value.1 <==> !c.phase.Closed? && Admit(c, now).Some?
  {}

  lemma SucceedIsSound(c: Circuit)
    requires Sound(c)
    ensures Sound(Succeed(c).0)
    ensures Succeed(c).1.Healthy? <==> Succeed(c).0.phase.Closed?
    ensures !Succeed(c).1.Unavailable? && !Succeed(c).0.phase.Open?
  {}

  lemma FailIsSound(c: Circuit, now: nat)
    requires Sound(c)
    ensures Sound(Fail(c, now).0)
    ensures Fail(c, now).1.Unavailable? ==> Fail(c, now).0.phase == Open(now)
    ensures !Fail(c, now).1.Healthy? && !Fail(c, now).0.phase.HalfOpen?
  {
    var total, failed := c.totalAttempts + 1, c.failedAttempts + 1;
    if total >= 10 && !ErrorRateOpens(total, failed) {
      RateIsExact(total, failed);
    }
  }

  lemma ReleaseIsSound(c: Circuit, halfOpen: bool)
    requires Sound(c)
    ensures Sound(Release(c, halfOpen))
  {}
}

/** Runs of one circuit with all the permits handed out, in any interleaving. */
module CircuitRuns {
  import opened Bytes
  import opened Circuits

  /** One atomic step: a request for a permit, or the end of one that is outstanding. */
  datatype Step =
    | Ask(now: nat)
    | Succeeded(halfOpen: bool)
    | Failed(halfOpen: bool, now: nat)
    | Dropped(halfOpen: bool)
  {
    predicate Completes() { Succeeded? || Failed? }
  }

  datatype State = State(circuit: Circuit, closedPermits: nat, probes: nat)

  const START: State := State(FRESH, 0, 0)

  /** The permit a step ends is outstanding. */
  ghost predicate Enabled(s: State, step: Step) {
    match step
    case Ask(_) => true
    case Succeeded(halfOpen) => Outstanding(s, halfOpen)
    case Failed(halfOpen, _) => Outstanding(s, halfOpen)
    case Dropped(halfOpen) => Outstanding(s, halfOpen)
  }

  ghost predicate Outstanding(s: State, halfOpen: bool) { if halfOpen then s.probes > 0 else s.closedPermits > 0 }

  ghost function Returned(s: State, halfOpen: bool, c: Circuit): State
    requires Outstanding(s, halfOpen)
  {
    if halfOpen then State(c, s.closedPermits, s.probes - 1) else State(c, s.closedPermits - 1, s.probes)
  }

  ghost function Next(s: State, step: Step): State
    requires Enabled(s, step)
  {
    match step
    case Ask(now) =>
      (match Admit(s.circuit, now)
       case None => s
       case Some((c, halfOpen)) =>
         if halfOpen then State(c, s.closedPermits, s.probes + 1) else State(c, s.closedPermits + 1, s.probes))
    case Succeeded(halfOpen) => Returned(s, halfOpen, Succeed(s.circuit).0)
    case Failed(halfOpen, now) => Returned(s, halfOpen, Fail(s.circuit, now).0)
    case Dropped(halfOpen) => Returned(s, halfOpen, Release(s.circuit, halfOpen))
  }

  /** The state after the steps, if each of them was possible. */
  ghost function Exec(steps: seq<Step>): Option<State> {
    if steps == [] then Some(START)
    else
      var last := |steps| - 1;
      match Exec(steps[..last])
      case None => None
      case Some(s) => if Enabled(s, steps[last]) then Some(Next(s, steps[last])) else None
  }

  lemma {:induction false} PrefixRuns(steps: seq<Step>, k: nat)
    requires Exec(steps).Some? && k <= |steps|
    ensures Exec(steps[..k]).Some?
    ensures k < |steps| ==> Enabled(Exec(steps[..k]).value, steps[k])
                            && Exec(steps[..k + 1]) == Some(Next(Exec(steps[..k]).value, steps[k]))
    decreases |steps|
  {
    if k < |steps| - 1 {
      PrefixRuns(steps[..|steps| - 1], k);
      assert steps[..|steps| - 1][..k] == steps[..k] && steps[..|steps| - 1][..k + 1] == steps[..k + 1];
    } else if k < |steps| {
      assert steps[..k + 1] == steps;
    } else {
      assert steps[..k] == steps;
    }
  }

  /** The circuit is sound in every run. */
  lemma {:induction false} EveryRunIsSound(steps: seq<Step>)
    requires Exec(steps).Some?
    ensures Sound(Exec(steps).value.circuit)
  {
    hide Sound, Admit, Succeed, Fail, Release;
    if steps == [] {
      FreshIsSound();
    } else {
      var last := |steps| - 1;
      EveryRunIsSound(steps[..last]);
      var c := Exec(steps[..last]).value.circuit;
      match steps[last]
      case Ask(now) => AdmitIsSound(c, now);
      case Succeeded(_) => SucceedIsSound(c);
      case Failed(_, now) => FailIsSound(c, now);
      case Dropped(halfOpen) => ReleaseIsSound(c, halfOpen);
    }
  }

  lemma FreshIsSound()
    ensures Sound(FRESH)
  {}

  // ---- single flight

  ghost predicate ProbeInFlight(s: State) { s.circuit.phase.HalfOpen? && s.circuit.phase.inFlight }

  /** At most one probe is outstanding, and the circuit knows whether there is one. */
  ghost predicate SingleFlight(s: State) {
    s.probes == if ProbeInFlight(s) then 1 else 0
  }

  /** A permit from a closed phase completes while a probe is in flight. */
  ghost predicate Disturbs(s: State, step: Step) {
    step.Completes() && !step.halfOpen && ProbeInFlight(s)
  }

  /** One step keeps single flight exactly when it does not disturb the probe. */
  lemma StepKeepsSingleFlight(s: State, step: Step)
    requires SingleFlight(s) && Enabled(s, step)
    ensures SingleFlight(Next(s, step)) <==> !Disturbs(s, step)
  {}

  ghost predicate AlwaysSingleFlight(steps: seq<Step>)
    requires Exec(steps).Some?
  {
    forall k | 0 <= k <= |steps| :: Exec(steps[..k]).Some? && SingleFlight(Exec(steps[..k]).value)
  }

  ghost predicate NeverDisturbed(steps: seq<Step>)
    requires Exec(steps).Some?
  {
    forall k | 0 <= k < |steps| :: Exec(steps[..k]).Some? && !Disturbs(Exec(steps[..k]).value, steps[k])
  }

  /** Single flight holds throughout a run exactly when no closed-phase permit completes under a probe. */
  lemma SingleFlightIff(steps: seq<Step>)
    requires Exec(steps).Some?
    ensures AlwaysSingleFlight(steps) <==> NeverDisturbed(steps)
  {
    hide Exec, SingleFlight, Disturbs, Next, Enabled;
    if NeverDisturbed(steps) {
      forall k | 0 <= k <= |steps| ensures Exec(steps[..k]).Some? && SingleFlight(Exec(steps[..k]).value) {
        FlightUpTo(steps, k);
      }
    } else if AlwaysSingleFlight(steps) {
      forall k | 0 <= k < |steps| ensures Exec(steps[..k]).Some? && !Disturbs(Exec(steps[..k]).value, steps[k]) {
        PrefixRuns(steps, k);
        assert SingleFlight(Exec(steps[..k + 1]).value);
        StepKeepsSingleFlight(Exec(steps[..k]).value, steps[k]);
      }
    }
  }

  lemma {:induction false} FlightUpTo(steps: seq<Step>, k: nat)
    requires Exec(steps).Some? && NeverDisturbed(steps) && k <= |steps|
    ensures Exec(steps[..k]).Some? && SingleFlight(Exec(steps[..k]).value)
  {
    hide Next, Enabled, Disturbs;
    PrefixRuns(steps, k);
    if k > 0 {
      FlightUpTo(steps, k - 1);
      PrefixRuns(steps, k - 1);
      StepKeepsSingleFlight(Exec(steps[..k - 1]).value, steps[k - 1]);
    }
  }

  // ---- reclosing

  /** A permit from a closed phase completes when the circuit is no longer closed. */
  ghost predicate Stale(s: State, step: Step) {
    step.Completes() && !step.halfOpen && !s.circuit.phase.Closed?
  }

  ghost predicate NeverStale(steps: seq<Step>)
    requires Exec(steps).Some?
  {
    forall k | 0 <= k < |steps| :: Exec(steps[..k]).Some? && !Stale(Exec(steps[..k]).value, steps[k])
  }

  ghost predicate NoCompletion(steps: seq<Step>, from: nat, upto: nat)
    requires upto <= |steps|
  {
    forall k | from <= k < upto :: !steps[k].Completes()
  }

  /** How a circuit that is not closed got there: opening, admission of a probe, first success. */
  ghost predicate Story(steps: seq<Step>, phase: Phase, opening: nat, admission: nat, first: nat) {
    match phase
    case Closed => true
    case Open(since) =>
      && opening < |steps| && steps[opening].Failed? && steps[opening].now == since
      && NoCompletion(steps, opening + 1, |steps|)
    case HalfOpen(successes, _) =>
      && opening < admission < |steps| && steps[opening].Failed?
      && steps[admission].Ask? && steps[admission].now >= steps[opening].now + REST
      && if successes == 0 then NoCompletion(steps, opening + 1, |steps|)
         else
           && successes == 1 && admission < first < |steps| && steps[first] == Succeeded(true)
           && NoCompletion(steps, opening + 1, first) && NoCompletion(steps, first + 1, |steps|)
  }

  lemma FrontNeverStale(steps: seq<Step>)
    requires steps != [] && Exec(steps).Some? && NeverStale(steps)
    ensures Exec(steps[..|steps| - 1]).Some? && NeverStale(steps[..|steps| - 1])
    ensures !Stale(Exec(steps[..|steps| - 1]).value, steps[|steps| - 1])
  {
    hide Stale, Next, Enabled;
    var front := steps[..|steps| - 1];
    forall k | 0 <= k < |front| ensures Exec(front[..k]).Some? && !Stale(Exec(front[..k]).value, front[k]) {
      assert front[..k] == steps[..k];
    }
  }

  lemma NoCompletionExtends(steps: seq<Step>, from: nat, upto: nat)
    requires steps != [] && upto < |steps| && NoCompletion(steps[..|steps| - 1], from, upto)
    ensures NoCompletion(steps, from, upto)
    ensures upto == |steps| - 1 && !steps[|steps| - 1].Completes() ==> NoCompletion(steps, from, |steps|)
  {
    var front := steps[..|steps| - 1];
    assert forall k :: 0 <= k < |front| ==> front[k] == steps[k];
  }

  /** Where a step that is not stale leads, by phase. */
  lemma PhaseAfter(s: State, step: Step)
    requires Enabled(s, step) && !Stale(s, step) && Sound(s.circuit) && SingleFlight(s)
    ensures var phase, next := s.circuit.phase, Next(s, step).circuit.phase;
            match phase
            case Closed => next.Closed? || (step.Failed? && next == Open(step.now))
            case Open(since) =>
              && !step.Completes()
              && (next == phase || (step.Ask? && step.now >= since + REST && next == HalfOpen(0, true)))
            case HalfOpen(successes, _) =>
              && successes <= 1
              && (match step
                  case Succeeded(halfOpen) => halfOpen && if successes == 0 then next == HalfOpen(1, false) else next.Closed?
                  case Failed(_, now) => next == Open(now)
                  case _ => next.HalfOpen? && next.successes == successes)
  {}

  /** The story goes on by one step. */
  lemma StoryGoesOn(steps: seq<Step>, phase: Phase, next: Phase, opening: nat, admission: nat, first: nat)
    returns (o: nat, a: nat, f: nat)
    requires steps != [] && Story(steps[..|steps| - 1], phase, opening, admission, first)
    requires var step := steps[|steps| - 1];
             match phase
             case Closed => next.Closed? || (step.Failed? && next == Open(step.now))
             case Open(since) =>
               && !step.Completes()
               && (next == phase || (step.Ask? && step.now >= since + REST && next == HalfOpen(0, true)))
             case HalfOpen(successes, _) =>
               && successes <= 1
               && (match step
                   case Succeeded(halfOpen) => halfOpen && if successes == 0 then next == HalfOpen(1, false) else next.Closed?
                   case Failed(_, now) => next == Open(now)
                   case _ => next.HalfOpen? && next.successes == successes)
    ensures Story(steps, next, o, a, f)
  {
    hide NoCompletion;
    var last := |steps| - 1;
    o, a, f := opening, admission, first;
    if !phase.Closed? && steps[last].Failed? {
      o := last;
      NothingAfter(steps);
    } else if phase.Closed? {
      o := last;
      NothingAfter(steps);
    } else if phase.Open? {
      NoCompletionExtends(steps, opening + 1, last);
      if next.HalfOpen? {
        a := last;
      }
    } else if phase.successes == 0 {
      NoCompletionExtends(steps, opening + 1, last);
      if next == HalfOpen(1, false) && steps[last].Succeeded? {
        f := last;
        NothingAfter(steps);
      }
    } else if next.HalfOpen? {
      NoCompletionExtends(steps, opening + 1, first);
      NoCompletionExtends(steps, first + 1, last);
    }
  }

  lemma NothingAfter(steps: seq<Step>)
    ensures NoCompletion(steps, |steps|, |steps|)
  {}

  lemma {:induction false} EveryStory(steps: seq<Step>) returns (opening: nat, admission: nat, first: nat)
    requires Exec(steps).Some? && NeverStale(steps)
    ensures Story(steps, Exec(steps).value.circuit.phase, opening, admission, first)
  {
    hide Stale, Next, Enabled, Sound, NeverStale, SingleFlight, NoCompletion;
    opening, admission, first := 0, 0, 0;
    if steps != [] {
      var front := steps[..|steps| - 1];
      FrontNeverStale(steps);
      EveryRunIsSound(front);
      SingleWhenNeverStale(front);
      opening, admission, first := EveryStory(front);
      var s := Exec(front).value;
      PhaseAfter(s, steps[|steps| - 1]);
      opening, admission, first :=
        StoryGoesOn(steps, s.circuit.phase, Exec(steps).value.circuit.phase, opening, admission, first);
    }
  }

  lemma SingleWhenNeverStale(steps: seq<Step>)
    requires Exec(steps).Some? && NeverStale(steps)
    ensures SingleFlight(Exec(steps).value)
  {
    hide Exec, Next, Enabled;
    SingleFlightIff(steps);
    assert steps[..|steps|] == steps;
  }

  /**
    When no closed-phase permit completes outside a closed phase, a circuit closes again only after
    a rest of 60 seconds and two successful probes, nothing having failed since it last opened.
  */
  lemma ReclosingTakesTwoProbes(steps: seq<Step>) returns (opening: nat, admission: nat, first: nat)
    requires steps != [] && Exec(steps).Some? && NeverStale(steps)
    requires !Exec(steps[..|steps| - 1]).value.circuit.phase.Closed?
    requires Exec(steps).value.circuit.phase.Closed?
    ensures var last := |steps| - 1;
            && opening < admission < first < last
            && steps[opening].Failed? && steps[admission].Ask? && steps[admission].now >= steps[opening].now + REST
            && steps[first] == steps[last] == Succeeded(true)
            && NoCompletion(steps, opening + 1, first) && NoCompletion(steps, first + 1, last)
  {
    hide Stale, Next, Enabled, Sound, NeverStale, SingleFlight, NoCompletion;
    var last := |steps| - 1;
    var front := steps[..last];
    FrontNeverStale(steps);
    EveryRunIsSound(front);
    SingleWhenNeverStale(front);
    opening, admission, first := EveryStory(front);
    PhaseAfter(Exec(front).value, steps[last]);
    NoCompletionExtends(steps, opening + 1, first);
    NoCompletionExtends(steps, first + 1, last);
  }

  // ---- what stale completions do

  lemma {:induction false} StepOn(steps: seq<Step>, s: State, step: Step)
    requires Exec(steps) == Some(s) && Enabled(s, step)
    ensures Exec(steps + [step]) == Some(Next(s, step))
  {
    assert (steps + [step])[..|steps|] == steps;
  }

  /** Six permits from the closed phase; four of them fail and open the circuit at time 0. */
  lemma FourFailures() returns (steps: seq<Step>)
    ensures Exec(steps) == Some(State(Circuit(Open(0), 0, 4, 4, 4), 2, 0))
  {
    hide Exec;
    var s := START;
    steps := [];
    assert Exec(steps) == Some(s) by { EmptyRun(); }
    for i := 0 to 6
      invariant s == State(FRESH, i, 0) && Exec(steps) == Some(s)
    {
      StepOn(steps, s, Ask(0));
      steps, s := steps + [Ask(0)], Next(s, Ask(0));
    }
    for i := 0 to 4
      invariant s == State(Circuit(if i == 4 then Open(0) else Closed, 0, i, i, i), 6 - i, 0) && Exec(steps) == Some(s)
    {
      StepOn(steps, s, Failed(false, 0));
      steps, s := steps + [Failed(false, 0)], Next(s, Failed(false, 0));
    }
  }

  lemma EmptyRun()
    ensures Exec([]) == Some(START)
  {}

  /** A stale success closes an open circuit at once, with no rest and no probe. */
  lemma StaleSuccessCloses() returns (steps: seq<Step>)
    ensures Exec(steps).Some? && steps != [] && steps[|steps| - 1] == Succeeded(false)
    ensures Exec(steps[..|steps| - 1]).Some? && Exec(steps[..|steps| - 1]).value.circuit.phase == Open(0)
    ensures Exec(steps).value.circuit.phase.Closed?
  {
    hide Exec;
    var front := FourFailures();
    StepOn(front, Exec(front).value, Succeeded(false));
    steps := front + [Succeeded(false)];
    assert steps[..|steps| - 1] == front;
  }

  /** A stale success during a probe frees the slot, and a second probe joins the first. */
  lemma StaleSuccessDoublesProbes() returns (steps: seq<Step>)
    ensures Exec(steps).Some? && Exec(steps).value.probes == 2
  {
    hide Exec;
    steps := FourFailures();
    var s := Exec(steps).value;
    StepOn(steps, s, Ask(REST));
    steps, s := steps + [Ask(REST)], Next(s, Ask(REST));
    StepOn(steps, s, Succeeded(false));
    steps, s := steps + [Succeeded(false)], Next(s, Succeeded(false));
    StepOn(steps, s, Ask(REST));
    steps := steps + [Ask(REST)];
  }
}
