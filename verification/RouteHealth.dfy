/** The circuits of all providers behind their locks, and the permits the attempts hold. */
module RouteHealth {
  import opened Bytes
  import opened Circuits
  import CircuitRuns

  datatype Target = CodexTarget | ClaudeTarget

  type ProviderId = string

  type Key = (Target, ProviderId)

  type CircuitMap = map<Key, Circuit>

  datatype Failure = Configuration | AccountUnavailable | NeedsReauthorization | InvalidBridgeRequest | CountTokensUnsupported
  {
    predicate IsTerminal() { InvalidBridgeRequest? || CountTokensUnsupported? }
  }

  datatype HealthOutcome = Success | TransportFailure | SemanticFailure | RetryableStatus | NotPrepared(failure: Failure)

  datatype Observation = Observation(
    provider: ProviderId, health: Health, consecutiveSuccesses: nat, consecutiveFailures: nat,
    totalAttempts: nat, failedAttempts: nat, outcome: HealthOutcome)

  function Observe(provider: ProviderId, c: Circuit, health: Health, outcome: HealthOutcome): Observation {
    Observation(provider, health, c.consecutiveSuccesses, c.consecutiveFailures, c.totalAttempts, c.failedAttempts, outcome)
  }

  function CircuitOf(circuits: CircuitMap, key: Key): Circuit {
    if key in circuits then circuits[key] else FRESH
  }

  datatype Permit = Permit(key: Key, halfOpen: bool)

  /** What another request does under the lock of a circuit: ask, complete a permit either way, or drop one. */
  datatype Other = OtherAsks(key: Key, now: nat) | OtherSucceeds(key: Key) | OtherFails(key: Key, now: nat) | OtherDrops(key: Key, halfOpen: bool)

  function Disturbed(circuits: CircuitMap, other: Other): CircuitMap {
    var c := CircuitOf(circuits, other.key);
    match other
    case OtherAsks(key, now) => circuits[key := if Circuits.Admit(c, now).Some? then Circuits.Admit(c, now).value.0 else c]
    case OtherSucceeds(key) => circuits[key := Circuits.Succeed(c).0]
    case OtherFails(key, now) => circuits[key := Circuits.Fail(c, now).0]
    case OtherDrops(key, halfOpen) => if key in circuits then circuits[key := Release(c, halfOpen)] else circuits
  }

  function AfterOthers(circuits: CircuitMap, others: seq<Other>): CircuitMap
    decreases |others|
  {
    if others == [] then circuits else AfterOthers(Disturbed(circuits, others[0]), others[1..])
  }

  predicate Untouched(others: seq<Other>, key: Key) { forall o <- others :: o.key != key }

  ghost predicate AllSound(circuits: CircuitMap) { forall key <- circuits :: Sound(circuits[key]) }

  /** Others keep circuits sound, remove none, and touch only those they work on. */
  lemma {:induction false} OthersKeep(circuits: CircuitMap, others: seq<Other>)
    ensures AllSound(circuits) ==> AllSound(AfterOthers(circuits, others))
    ensures circuits.Keys <= AfterOthers(circuits, others).Keys
    ensures forall key: Key :: Untouched(others, key) ==> CircuitOf(AfterOthers(circuits, others), key) == CircuitOf(circuits, key)
    decreases |others|
  {
    hide Circuits.Admit, Circuits.Succeed, Circuits.Fail, Release, Sound;
    if others != [] {
      OtherKeeps(circuits, others[0]);
      OthersKeep(Disturbed(circuits, others[0]), others[1..]);
      forall key: Key | Untouched(others, key) ensures Untouched(others[1..], key) && others[0].key != key {
        assert others[0] in others;
      }
    }
  }

  lemma OtherKeeps(circuits: CircuitMap, other: Other)
    ensures AllSound(circuits) ==> AllSound(Disturbed(circuits, other))
    ensures circuits.Keys <= Disturbed(circuits, other).Keys
    ensures forall key: Key :: other.key != key ==> CircuitOf(Disturbed(circuits, other), key) == CircuitOf(circuits, key)
  {
    hide Circuits.Admit, Circuits.Succeed, Circuits.Fail, Sound;
    FreshIsSound();
    var c := CircuitOf(circuits, other.key);
    if AllSound(circuits) {
      OtherStepIsSound(c, other);
    }
  }

  lemma OtherStepIsSound(c: Circuit, other: Other)
    requires Sound(c)
    ensures match other
            case OtherAsks(_, now) => Circuits.Admit(c, now).Some? ==> Sound(Circuits.Admit(c, now).value.0)
            case OtherSucceeds(_) => Sound(Circuits.Succeed(c).0)
            case OtherFails(_, now) => Sound(Circuits.Fail(c, now).0)
            case OtherDrops(_, halfOpen) => Sound(Release(c, halfOpen))
  {
    match other
    case OtherAsks(_, now) => AdmitIsSound(c, now);
    case OtherSucceeds(_) => SucceedIsSound(c);
    case OtherFails(_, now) => FailIsSound(c, now);
    case OtherDrops(_, _) =>
  }

  /** What another request does to a circuit, as a step of the runs of that circuit. */
  ghost function StepOf(other: Other): CircuitRuns.Step {
    match other
    case OtherAsks(_, now) => CircuitRuns.Ask(now)
    case OtherSucceeds(_) => CircuitRuns.Succeeded(false)
    case OtherFails(_, now) => CircuitRuns.Failed(false, now)
    case OtherDrops(_, halfOpen) => CircuitRuns.Dropped(halfOpen)
  }

  /** The circuit after the steps that concern it, with permits of both kinds at hand. */
  ghost function Worked(c: Circuit, others: seq<Other>, key: Key): Circuit {
    if others == [] then c
    else
      var before, last := Worked(c, others[..|others| - 1], key), others[|others| - 1];
      if last.key != key then before else CircuitRuns.Next(CircuitRuns.State(before, 1, 1), StepOf(last)).circuit
  }

  lemma OneOtherWorks(circuits: CircuitMap, other: Other)
    ensures CircuitOf(Disturbed(circuits, other), other.key)
            == CircuitRuns.Next(CircuitRuns.State(CircuitOf(circuits, other.key), 1, 1), StepOf(other)).circuit
  {
    hide Circuits.Admit, Circuits.Succeed, Circuits.Fail;
  }

  lemma {:induction false} LastOther(circuits: CircuitMap, others: seq<Other>)
    requires others != []
    ensures AfterOthers(circuits, others) == Disturbed(AfterOthers(circuits, others[..|others| - 1]), others[|others| - 1])
    decreases |others|
  {
    hide Disturbed;
    if |others| > 1 {
      LastOther(Disturbed(circuits, others[0]), others[1..]);
      assert others[1..][..|others| - 2] == others[..|others| - 1][1..];
    } else {
      assert others[..0] == [] && others[1..] == [];
    }
  }

  /** Whatever others do, each circuit goes through the steps that concern it, in order. */
  lemma {:induction false} OthersWork(circuits: CircuitMap, others: seq<Other>, key: Key)
    ensures CircuitOf(AfterOthers(circuits, others), key) == Worked(CircuitOf(circuits, key), others, key)
    decreases |others|
  {
    hide Disturbed, CircuitRuns.Next;
    if others != [] {
      var front, last := others[..|others| - 1], others[|others| - 1];
      OthersWork(circuits, front, key);
      LastOther(circuits, others);
      if last.key == key {
        OneOtherWorks(AfterOthers(circuits, front), last);
      } else {
        OtherKeeps(AfterOthers(circuits, front), last);
      }
    }
  }

  /** A failure opens the circuit from half-open, at the fourth in a row, or at a failure rate of 60 % over ten attempts. */
  lemma FailTells(c: Circuit, now: nat)
    ensures var total, failed := c.totalAttempts + 1, c.failedAttempts + 1;
            var opens := || c.phase.HalfOpen? || c.consecutiveFailures >= 3
                         || (total >= 10 && (failed * 10 >= total * 6 || failed * 10 >= 0xFFFF_FFFF_FFFF_FFFF));
            var (after, health) := Circuits.Fail(c, now);
            && health == (if opens then Unavailable else Degraded)
            && after == Circuit(if opens then Open(now) else c.phase, 0, c.consecutiveFailures + 1, total, failed)
  {}

  class RouteHealthRuntime {
    var circuits: CircuitMap
    ghost var outstanding: multiset<Permit>   // permits of the callers here, neither completed nor dropped

    ghost predicate Valid()
      reads this
    {
      AllSound(circuits)
    }

    constructor ()
      ensures Valid() && circuits == map[] && outstanding == multiset{}
    {
      circuits := map[];
      outstanding := multiset{};
    }

    /** `admit`; asking creates the circuit. */
    method Admit(target: Target, provider: ProviderId, now: nat) returns (permit: Option<Permit>)
      requires Valid()
      modifies this
      ensures Valid()
      ensures var key := (target, provider); var c := CircuitOf(old(circuits), key);
              match Circuits.Admit(c, now)
              case None => permit.None? && circuits == old(circuits)[key := c] && outstanding == old(outstanding)
              case Some((next, halfOpen)) =>
                && permit == Some(Permit(key, halfOpen)) && circuits == old(circuits)[key := next]
                && outstanding == old(outstanding) + multiset{permit.value}
      ensures var c := CircuitOf(old(circuits), (target, provider));
              permit.Some? <==> || c.phase.Closed? || (c.phase.Open? && now >= c.phase.since + 60_000_000_000)
                                || (c.phase.HalfOpen? && !c.phase.inFlight)
    {
      FreshIsSound();
      var key := (target, provider);
      var c := CircuitOf(circuits, key);
      AdmitIsSound(c, now);
      match c.phase {
        case Closed =>
          permit := Some(Permit(key, false));
        case Open(since) =>
          if now < since || now - since < REST {
            circuits := circuits[key := c];
            return None;
          }
          c := c.(phase := HalfOpen(0, true));
          permit := Some(Permit(key, true));
        case HalfOpen(successes, inFlight) =>
          if inFlight {
            circuits := circuits[key := c];
            return None;
          }
          c := c.(phase := HalfOpen(successes, true));
          permit := Some(Permit(key, true));
      }
      circuits := circuits[key := c];
      outstanding := outstanding + multiset{permit.value};
    }

    /** Other requests get the locks, any number of times. */
    method LetOthers(others: seq<Other>)
      requires Valid()
      modifies this
      ensures Valid() && outstanding == old(outstanding) && circuits == AfterOthers(old(circuits), others)
    {
      OthersKeep(circuits, others);
      circuits := AfterOthers(circuits, others);
    }

    /** `success` on a permit. */
    method Succeed(permit: Permit) returns (observation: Observation)
      requires Valid() && permit in outstanding
      modifies this
      ensures Valid() && outstanding == old(outstanding) - multiset{permit}
      ensures var (c, health) := Circuits.Succeed(CircuitOf(old(circuits), permit.key));
              && circuits == old(circuits)[permit.key := c]
              && observation == Observe(permit.key.1, c, health, Success)
      ensures var c := CircuitOf(old(circuits), permit.key);
              observation == Observation(
                permit.key.1, if c.phase.HalfOpen? && c.phase.successes == 0 then Degraded else Healthy,
                c.consecutiveSuccesses + 1, 0, c.totalAttempts + 1, c.failedAttempts, Success)
    {
      FreshIsSound();
      var c := CircuitOf(circuits, permit.key);
      SucceedIsSound(c);
      var health := Healthy;
      c := c.(totalAttempts := c.totalAttempts + 1, consecutiveSuccesses := c.consecutiveSuccesses + 1, consecutiveFailures := 0);
      if c.phase.HalfOpen? {
        c := c.(phase := HalfOpen(c.phase.successes + 1, false));
        if c.phase.successes >= 2 {
          c := c.(phase := Closed);
        } else {
          health := Degraded;
        }
      } else {
        c := c.(phase := Closed);
      }
      circuits := circuits[permit.key := c];
      outstanding := outstanding - multiset{permit};
      observation := Observe(permit.key.1, c, health, Success);
    }

    /** `failure` on a permit. */
    method Fail(permit: Permit, now: nat, outcome: HealthOutcome) returns (observation: Observation)
      requires Valid() && permit in outstanding
      modifies this
      ensures Valid() && outstanding == old(outstanding) - multiset{permit}
      ensures var (c, health) := Circuits.Fail(CircuitOf(old(circuits), permit.key), now);
              && circuits == old(circuits)[permit.key := c]
              && observation == Observe(permit.key.1, c, health, outcome)
      ensures var c := CircuitOf(old(circuits), permit.key);
              var total, failed := c.totalAttempts + 1, c.failedAttempts + 1;
              var opens := || c.phase.HalfOpen? || c.consecutiveFailures >= 3
                           || (total >= 10 && (failed * 10 >= total * 6 || failed * 10 >= 0xFFFF_FFFF_FFFF_FFFF));
              observation == Observation(
                permit.key.1, if opens then Unavailable else Degraded, 0, c.consecutiveFailures + 1, total, failed, outcome)
    {
      hide ErrorRateOpens, Sound;
      FreshIsSound();
      var c := CircuitOf(circuits, permit.key);
      FailIsSound(c, now);
      FailTells(c, now);
      c := c.(totalAttempts := c.totalAttempts + 1, failedAttempts := c.failedAttempts + 1,
              consecutiveSuccesses := 0, consecutiveFailures := c.consecutiveFailures + 1);
      var health := Degraded;
      if c.phase.HalfOpen? || c.consecutiveFailures >= 4 || ErrorRateOpens(c.totalAttempts, c.failedAttempts) {
        c := c.(phase := Open(now));
        health := Unavailable;
      }
      circuits := circuits[permit.key := c];
      outstanding := outstanding - multiset{permit};
      observation := Observe(permit.key.1, c, health, outcome);
    }

    /** Dropping a permit that was not completed. */
    method Drop(permit: Permit)
      requires Valid() && permit in outstanding
      modifies this
      ensures Valid() && outstanding == old(outstanding) - multiset{permit}
      ensures circuits == if permit.key in old(circuits)
                          then old(circuits)[permit.key := Release(old(circuits)[permit.key], permit.halfOpen)]
                          else old(circuits)
    {
      outstanding := outstanding - multiset{permit};
      if !permit.halfOpen {
        assert permit.key in circuits ==> circuits[permit.key := circuits[permit.key]] == circuits;
        return;
      }
      if permit.key in circuits && circuits[permit.key].phase.HalfOpen? {
        var c := circuits[permit.key];
        circuits := circuits[permit.key := c.(phase := HalfOpen(c.phase.successes, false))];
      } else {
        assert permit.key in circuits ==> circuits[permit.key := circuits[permit.key]] == circuits;
      }
    }
  }

  lemma FreshIsSound()
    ensures Sound(FRESH)
  {}
}
