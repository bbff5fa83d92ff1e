/**
  What a circuit does, told from the outcomes of the attempts alone: its counters are those of the
  history of completions, and the history, the clock and the phase decide every step.
*/
module CircuitHistories {
  import opened Bytes
  import opened Circuits
  import opened CircuitRuns

  /** The outcomes of the attempts completed in a run, oldest first. */
  ghost function History(steps: seq<Step>): (h: seq<bool>)
  {
    if steps == [] then []
    else
      var last := steps[|steps| - 1];
      History(steps[..|steps| - 1]) + if last.Succeeded? then [true] else if last.Failed? then [false] else []
  }

  ghost function Failures(h: seq<bool>): (n: nat)
    ensures n <= |h|
  {
    if h == [] then 0 else Failures(h[..|h| - 1]) + if h[|h| - 1] then 0 else 1
  }

  /** The last `n` attempts, and no more than these, all ended in this way. */
  ghost predicate EndsWith(h: seq<bool>, outcome: bool, n: nat) {
    && n <= |h| && (forall k :: |h| - n <= k < |h| ==> h[k] == outcome)
    && (n < |h| ==> h[|h| - n - 1] != outcome)
  }

  ghost predicate LastFourFailed(h: seq<bool>) {
    |h| >= 4 && !h[|h| - 1] && !h[|h| - 2] && !h[|h| - 3] && !h[|h| - 4]
  }

  /** Of ten attempts or more at least 60 % failed; beyond 64 bits tenfold the failures count as enough. */
  ghost predicate RateReached(h: seq<bool>) {
    |h| >= 10 && (Failures(h) * 10 >= |h| * 6 || Failures(h) * 10 >= 0xFFFF_FFFF_FFFF_FFFF)
  }

  ghost predicate Overloaded(h: seq<bool>) { LastFourFailed(h) || RateReached(h) }

  lemma HistoryOn(steps: seq<Step>, step: Step)
    ensures History(steps + [step])
            == History(steps) + if step.Succeeded? then [true] else if step.Failed? then [false] else []
  {
    assert (steps + [step])[..|steps|] == steps;
  }

  lemma OneMoreOutcome(h: seq<bool>, outcome: bool, n: nat)
    requires EndsWith(h, outcome, n)
    ensures Failures(h + [outcome]) == Failures(h) + if outcome then 0 else 1
    ensures EndsWith(h + [outcome], outcome, n + 1) && EndsWith(h + [outcome], !outcome, 0)
  {
    assert (h + [outcome])[..|h|] == h;
    forall k | |h| - n <= k < |h| + 1 ensures (h + [outcome])[k] == outcome {
      assert k < |h| ==> h[k] == outcome;
    }
  }

  /** In every run the counters are those of the history. */
  lemma {:induction false} CountersTellHistory(steps: seq<Step>)
    requires Exec(steps).Some?
    ensures var c, h := Exec(steps).value.circuit, History(steps);
            && c.totalAttempts == |h| && c.failedAttempts == Failures(h)
            && EndsWith(h, false, c.consecutiveFailures) && EndsWith(h, true, c.consecutiveSuccesses)
  {
    hide ErrorRateOpens, EndsWith, Failures;
    if steps == [] {
      NothingYet();
    } else {
      var front, step := steps[..|steps| - 1], steps[|steps| - 1];
      CountersTellHistory(front);
      var c := Exec(front).value.circuit;
      if step.Completes() {
        var run := if step.Succeeded? then c.consecutiveSuccesses else c.consecutiveFailures;
        OneMoreOutcome(History(front), step.Succeeded?, run);
      } else {
        assert History(steps) == History(front);
      }
    }
  }

  lemma NothingYet()
    ensures Failures([]) == 0 && EndsWith([], false, 0) && EndsWith([], true, 0)
  {}

  lemma FourOrMore(h: seq<bool>, n: nat)
    requires EndsWith(h, false, n)
    ensures n >= 4 <==> LastFourFailed(h)
  {
    if n < 4 && n < |h| {
      assert h[|h| - n - 1];
    }
  }

  /** The counters reach a bound exactly when the history does. */
  lemma BoundsTellHistory(c: Circuit, now: nat, h: seq<bool>)
    requires c.totalAttempts + 1 == |h| && c.failedAttempts + 1 == Failures(h)
    requires EndsWith(h, false, c.consecutiveFailures + 1)
    ensures Fail(c, now).1 == if c.phase.HalfOpen? || Overloaded(h) then Unavailable else Degraded
    ensures Fail(c, now).0.phase == if c.phase.HalfOpen? || Overloaded(h) then Open(now) else c.phase
  {
    hide EndsWith, Failures, LastFourFailed;
    FourOrMore(h, c.consecutiveFailures + 1);
  }

  ghost function PhaseOf(steps: seq<Step>): Phase
    requires Exec(steps).Some?
  {
    Exec(steps).value.circuit.phase
  }

  /** Where the last step of a run leads: for every phase and every step, by history and clock. */
  lemma LastStepTells(front: seq<Step>, step: Step)
    requires Exec(front + [step]).Some?
    ensures Exec(front).Some?
    ensures var before, after, h := PhaseOf(front), PhaseOf(front + [step]), History(front + [step]);
            match step
            case Ask(now) =>
              if before.Open? && now >= before.since + 60_000_000_000 then after == HalfOpen(0, true)
              else if before.HalfOpen? then after == HalfOpen(before.successes, true)
              else after == before
            case Succeeded(_) =>
              after == if before == HalfOpen(0, true) || before == HalfOpen(0, false) then HalfOpen(1, false) else Closed
            case Failed(_, now) => after == if before.HalfOpen? || Overloaded(h) then Open(now) else before
            case Dropped(halfOpen) =>
              after == if halfOpen && before.HalfOpen? then HalfOpen(before.successes, false) else before
  {
    hide ErrorRateOpens, EndsWith, Failures, Overloaded, Fail;
    var steps := front + [step];
    assert steps[..|steps| - 1] == front;
    if step.Failed? {
      CountersTellHistory(front);
      HistoryOn(front, step);
      OneMoreOutcome(History(front), false, Exec(front).value.circuit.consecutiveFailures);
      BoundsTellHistory(Exec(front).value.circuit, step.now, History(steps));
    }
    EveryRunIsSound(front);
  }

  /**
    A closed circuit opens by a failure, and then exactly when the last four attempts failed or,
    over its lifetime, at least six in ten of at least ten did; nothing else opens it.
  */
  lemma ClosedOpensIff(front: seq<Step>, step: Step)
    requires Exec(front + [step]).Some? && Exec(front).Some? && PhaseOf(front).Closed?
    ensures PhaseOf(front + [step]) == if step.Failed? && Overloaded(History(front + [step])) then Open(step.now) else Closed
  {
    LastStepTells(front, step);
  }

  /** What is reported of a completion. */
  ghost function Report(front: seq<Step>, step: Step): Health
    requires Exec(front).Some? && step.Completes()
  {
    if step.Succeeded? then Succeed(Exec(front).value.circuit).1 else Fail(Exec(front).value.circuit, step.now).1
  }

  /**
    A provider is reported unavailable exactly when its failure opened the circuit, and healthy exactly
    when the circuit is closed after a success.
  */
  lemma ReportTells(front: seq<Step>, step: Step)
    requires Exec(front + [step]).Some? && Exec(front).Some? && step.Completes()
    ensures Report(front, step).Unavailable?
            <==> step.Failed? && (PhaseOf(front).HalfOpen? || Overloaded(History(front + [step])))
    ensures Report(front, step).Healthy? <==> step.Succeeded? && PhaseOf(front + [step]).Closed?
  {
    hide ErrorRateOpens, EndsWith, Failures, Overloaded, Fail;
    var steps := front + [step];
    assert steps[..|steps| - 1] == front;
    CountersTellHistory(front);
    HistoryOn(front, step);
    if step.Failed? {
      OneMoreOutcome(History(front), false, Exec(front).value.circuit.consecutiveFailures);
      BoundsTellHistory(Exec(front).value.circuit, step.now, History(steps));
    } else {
      EveryRunIsSound(front);
      SucceedIsSound(Exec(front).value.circuit);
    }
  }

  /** Who asks is given a permit exactly in a closed phase, after 60 seconds of rest, or when no probe is under way. */
  lemma AdmittedIff(front: seq<Step>, now: nat)
    requires Exec(front).Some?
    ensures Exec(front + [Ask(now)]).Some?
    ensures var s, t, phase := Exec(front).value, Exec(front + [Ask(now)]).value, PhaseOf(front);
            && t.closedPermits == s.closedPermits + (if phase.Closed? then 1 else 0)
            && t.probes == s.probes + if || (phase.Open? && now >= phase.since + 60_000_000_000)
                                         || (phase.HalfOpen? && !phase.inFlight) then 1 else 0
  {
    StepOn(front, Exec(front).value, Ask(now));
  }

  /** A permit is completed or dropped exactly when one of its kind is outstanding, and then that one is gone. */
  lemma PermitReturns(front: seq<Step>, step: Step)
    requires Exec(front).Some? && !step.Ask?
    ensures var s := Exec(front).value;
            Exec(front + [step]).Some? <==> if step.halfOpen then s.probes >= 1 else s.closedPermits >= 1
    ensures Exec(front + [step]).Some? ==>
              var s, t := Exec(front).value, Exec(front + [step]).value;
              && t.probes == s.probes - (if step.halfOpen then 1 else 0)
              && t.closedPermits == s.closedPermits - if step.halfOpen then 0 else 1
  {
    assert (front + [step])[..|front|] == front;
  }

  /** An open circuit that rested 60 seconds is closed by two probes that succeed. */
  lemma TwoProbesClose(front: seq<Step>, now: nat, later: nat)
    requires Exec(front).Some? && PhaseOf(front).Open? && now >= PhaseOf(front).since + 60_000_000_000
    ensures var probes := [Ask(now), Succeeded(true), Ask(later), Succeeded(true)];
            Exec(front + probes).Some? && PhaseOf(front + probes).Closed?
  {
    hide Exec;
    var steps, s := front, Exec(front).value;
    for i := 0 to 2
      invariant Exec(steps) == Some(s)
      invariant steps == if i == 0 then front else if i == 1 then front + [Ask(now), Succeeded(true)]
                         else front + [Ask(now), Succeeded(true), Ask(later), Succeeded(true)]
      invariant if i == 0 then s == Exec(front).value
                else s.circuit.phase == if i == 1 then HalfOpen(1, false) else Closed
    {
      var ask := Ask(if i == 0 then now else later);
      StepOn(steps, s, ask);
      s := Next(s, ask);
      StepOn(steps + [ask], s, Succeeded(true));
      s := Next(s, Succeeded(true));
      steps := steps + [ask] + [Succeeded(true)];
    }
  }
}
