/**
  Routing one request along the pinned plan: the loop over the members, and the recursive account
  of what it attempts, sends and returns.
*/
module Failover {
  import opened Bytes
  import opened Circuits
  import opened RouteHealth

  /** What priming made of a successful response. */
  datatype Primed = Committed | CommittedFailure | Retry

  /** How one attempt goes, seen from outside. */
  datatype Answer = NotBuilt(failure: Failure) | NotSent | Answered(status: nat, primed: Primed)

  /**
    The attempt at one member: what other requests do before its permit is asked for and while it is
    held, when it is asked for and when the attempt ends, and how.
  */
  datatype Attempt = Attempt(before: seq<Other>, askedAt: nat, during: seq<Other>, endedAt: nat, answer: Answer)

  predicate IsSuccess(status: nat) { 200 <= status < 300 }

  predicate RetryableCode(code: nat) {
    code in {401, 403, 404, 408, 409, 429, 451} || (500 <= code <= 599 && code != 501)
  }

  /** The response handed back: which member gave it, and whether it failed semantically after commitment. */
  datatype Routed = Routed(member: nat, status: nat, semanticFailure: bool)

  /** What an attempt means for the request. */
  datatype Verdict =
    | Terminal(failure: Failure)                                    // nobody else is asked, nothing is returned
    | Final(routed: Routed, outcome: Option<HealthOutcome>)         // this response is returned
    | Fallback(routed: Routed)                                      // returned unless a later member does better
    | Passed(reason: HealthOutcome, problem: Option<Failure>)      // nothing to return

  function VerdictOf(member: nat, answer: Answer): Verdict {
    match answer
    case NotBuilt(f) => if f.IsTerminal() then Terminal(f) else Passed(NotPrepared(f), Some(f))
    case NotSent => Passed(TransportFailure, None)
    case Answered(status, primed) =>
      if IsSuccess(status) then
        match primed
        case Retry => Passed(SemanticFailure, None)
        case Committed => Final(Routed(member, status, false), Some(Success))
        case CommittedFailure => Final(Routed(member, status, true), Some(SemanticFailure))
      else if RetryableCode(status) then Fallback(Routed(member, status, false))
      else Final(Routed(member, status, false), None)
  }

  /** The outcome reported to the circuit; `None` when the permit is just dropped. */
  function Reported(v: Verdict): Option<HealthOutcome> {
    match v
    case Terminal(f) => Some(NotPrepared(f))
    case Final(_, outcome) => outcome
    case Fallback(_) => Some(RetryableStatus)
    case Passed(outcome, _) => Some(outcome)
  }

  /** The circuit and the observation after an admitted attempt. */
  function Ended(c: Circuit, halfOpen: bool, provider: ProviderId, now: nat, reported: Option<HealthOutcome>): (Circuit, seq<Observation>) {
    match reported
    case None => (Release(c, halfOpen), [])
    case Some(Success) => (Succeed(c).0, [Observe(provider, Succeed(c).0, Succeed(c).1, Success)])
    case Some(outcome) => (Fail(c, now).0, [Observe(provider, Fail(c, now).0, Fail(c, now).1, outcome)])
  }

  /** What the members from some index on contribute. */
  datatype Account = Account(
    circuits: CircuitMap, routed: Option<Routed>, failure: Option<Failure>, observations: seq<Observation>,
    attempts: seq<nat>, sent: seq<nat>, stopped: bool)

  /** `first` happened, and then `rest`. */
  function Then(first: Account, rest: Account): Account {
    Account(rest.circuits,
            if rest.stopped || rest.routed.Some? then rest.routed else first.routed,
            if rest.attempts == [] then first.failure else rest.failure,
            first.observations + rest.observations, first.attempts + rest.attempts, first.sent + rest.sent, rest.stopped)
  }

  function Own(circuits: CircuitMap, member: nat, answer: Answer, observations: seq<Observation>): Account {
    var v := VerdictOf(member, answer);
    Account(circuits,
            if v.Final? || v.Fallback? then Some(v.routed) else None,
            if v.Terminal? then Some(v.failure) else if v.Passed? then v.problem else None,
            observations, [member], if answer.NotBuilt? then [] else [member], v.Terminal? || v.Final?)
  }

  /** What an admitted attempt at member `i` adds; its circuit may have changed under it. */
  function OwnAt(found: CircuitMap, target: Target, members: seq<ProviderId>, script: seq<Attempt>, i: nat): Account
    requires i < |members| == |script|
    requires Circuits.Admit(CircuitOf(found, (target, members[i])), script[i].askedAt).Some?
  {
    var key := (target, members[i]);
    var (c, halfOpen) := Circuits.Admit(CircuitOf(found, key), script[i].askedAt).value;
    var later := AfterOthers(found[key := c], script[i].during);
    var (ended, seen) := Ended(CircuitOf(later, key), halfOpen, members[i], script[i].endedAt, Reported(VerdictOf(i, script[i].answer)));
    Own(later[key := ended], i, script[i].answer, seen)
  }

  /** The recursive account: the members from `i` on, in order. */
  function Plan(circuits: CircuitMap, target: Target, members: seq<ProviderId>, script: seq<Attempt>, i: nat): Account
    requires i <= |members| == |script|
    decreases |members| - i
  {
    if i == |members| then Account(circuits, None, None, [], [], [], false)
    else
      var key := (target, members[i]);
      var found := AfterOthers(circuits, script[i].before);
      match Circuits.Admit(CircuitOf(found, key), script[i].askedAt)
      case None => Plan(found[key := CircuitOf(found, key)], target, members, script, i + 1)
      case Some((c, halfOpen)) =>
        var own := OwnAt(found, target, members, script, i);
        if own.stopped then own else Then(own, Plan(own.circuits, target, members, script, i + 1))
  }

  // ---- what the account says

  ghost predicate Increasing(s: seq<nat>, from: nat, upto: nat) {
    && (forall k :: 0 <= k < |s| ==> from <= s[k] < upto)
    && (forall j, k :: 0 <= j < k < |s| ==> s[j] < s[k])
  }

  /** The last attempt that left a response to fall back on. */
  ghost function LastFallback(attempts: seq<nat>, script: seq<Attempt>): Option<Routed>
    requires forall k :: 0 <= k < |attempts| ==> attempts[k] < |script|
  {
    if attempts == [] then None
    else
      var last := attempts[|attempts| - 1];
      var v := VerdictOf(last, script[last].answer);
      if v.Fallback? then Some(v.routed) else LastFallback(attempts[..|attempts| - 1], script)
  }

  /** What may be said of an account of the members from `i` on. */
  ghost predicate Explained(a: Account, script: seq<Attempt>, i: nat) {
    // attempts and sendings are subsequences of the plan, in order
    && Increasing(a.attempts, i, |script|)
    && (forall k :: k in a.sent <==> k in a.attempts && k < |script| && !script[k].answer.NotBuilt?)
    && Increasing(a.sent, i, |script|)
    // only the last attempt can end the matter, and then it does
    && (forall j :: 0 <= j < |a.attempts| - 1 ==> !Ends(script, a.attempts[j]))
    && (a.stopped <==> a.attempts != [] && Ends(script, a.attempts[|a.attempts| - 1]))
    // what is returned
    && a.routed == (if a.stopped then ReturnedBy(script, a.attempts[|a.attempts| - 1])
                    else LastFallback(a.attempts, script))
    && a.failure == (if a.attempts == [] then None else FailureOf(script, a.attempts[|a.attempts| - 1]))
  }

  ghost predicate Ends(script: seq<Attempt>, member: nat)
    requires member < |script|
  {
    var v := VerdictOf(member, script[member].answer);
    v.Terminal? || v.Final?
  }

  /** The response of an attempt that ended the matter; a terminal failure returns none. */
  ghost function ReturnedBy(script: seq<Attempt>, member: nat): Option<Routed>
    requires member < |script|
  {
    var v := VerdictOf(member, script[member].answer);
    if v.Final? then Some(v.routed) else None
  }

  ghost function FailureOf(script: seq<Attempt>, member: nat): Option<Failure>
    requires member < |script|
  {
    match script[member].answer
    case NotBuilt(f) => Some(f)
    case _ => None
  }

  lemma {:induction false} LastFallbackJoin(first: nat, rest: seq<nat>, script: seq<Attempt>)
    requires first < |script| && forall k :: 0 <= k < |rest| ==> rest[k] < |script|
    ensures LastFallback([first] + rest, script)
            == if LastFallback(rest, script).Some? then LastFallback(rest, script) else LastFallback([first], script)
    decreases |rest|
  {
    var all := [first] + rest;
    if rest == [] {
      assert all == [first];
    } else {
      var front := rest[..|rest| - 1];
      assert all[..|all| - 1] == [first] + front;
      LastFallbackJoin(first, front, script);
    }
  }

  lemma OwnExplained(circuits: CircuitMap, i: nat, script: seq<Attempt>, seen: seq<Observation>)
    requires i < |script|
    ensures Explained(Own(circuits, i, script[i].answer, seen), script, i)
  {
    assert [i][..0] == [];
    assert LastFallback([], script) == None;
  }

  lemma ThenExplained(own: Account, rest: Account, script: seq<Attempt>, i: nat)
    requires i < |script| && own.attempts == [i] && (own.sent == [] || own.sent == [i]) && !own.stopped
    requires Explained(own, script, i) && Explained(rest, script, i + 1)
    ensures Explained(Then(own, rest), script, i)
  {
    hide VerdictOf, LastFallback, Ends, ReturnedBy, FailureOf;
    var both := Then(own, rest);
    LastFallbackJoin(i, rest.attempts, script);
    JoinedInOrder(own, rest, script, i);
    if rest.attempts != [] {
      assert both.attempts[|both.attempts| - 1] == rest.attempts[|rest.attempts| - 1];
      assert own.attempts[|own.attempts| - 1] == i;
      StoppedIsLast(own, rest, script, i);
    } else {
      assert both.attempts == [i];
    }
  }

  lemma JoinedInOrder(own: Account, rest: Account, script: seq<Attempt>, i: nat)
    requires i < |script| && own.attempts == [i] && (own.sent == [] || own.sent == [i])
    requires Explained(own, script, i) && Explained(rest, script, i + 1)
    ensures Increasing(own.attempts + rest.attempts, i, |script|) && Increasing(own.sent + rest.sent, i, |script|)
    ensures forall k :: k in own.sent + rest.sent <==>
                          k in own.attempts + rest.attempts && k < |script| && !script[k].answer.NotBuilt?
  {
    hide VerdictOf, LastFallback, Ends, ReturnedBy, FailureOf;
  }

  lemma StoppedIsLast(own: Account, rest: Account, script: seq<Attempt>, i: nat)
    requires i < |script| && own.attempts == [i] && !own.stopped && rest.attempts != []
    requires Explained(own, script, i) && Explained(rest, script, i + 1)
    ensures forall j :: 0 <= j < |own.attempts + rest.attempts| - 1 ==> !Ends(script, (own.attempts + rest.attempts)[j])
  {
    hide VerdictOf, LastFallback, ReturnedBy, FailureOf;
    var all := own.attempts + rest.attempts;
    forall j | 0 <= j < |all| - 1 ensures !Ends(script, all[j]) {
      if j == 0 {
        assert all[j] == own.attempts[|own.attempts| - 1];
      } else {
        assert all[j] == rest.attempts[j - 1];
      }
    }
  }

  lemma {:induction false} Weakened(a: Account, script: seq<Attempt>, i: nat)
    requires Explained(a, script, i + 1)
    ensures Explained(a, script, i)
  {}

  /**
    Attempts go down the plan in order; nothing is attempted after a final response or a terminal
    failure; what comes back is the final response, or else the last retryable one.
  */
  lemma {:induction false} PlanExplained(circuits: CircuitMap, target: Target, members: seq<ProviderId>, script: seq<Attempt>, i: nat)
    requires i <= |members| == |script|
    ensures Explained(Plan(circuits, target, members, script, i), script, i)
    decreases |members| - i
  {
    hide Explained, Then, Ended, VerdictOf, Circuits.Admit, AfterOthers;
    if i == |members| {
      EmptyExplained(circuits, script, i);
    } else {
      var key := (target, members[i]);
      var found := AfterOthers(circuits, script[i].before);
      match Circuits.Admit(CircuitOf(found, key), script[i].askedAt)
      case None =>
        PlanExplained(found[key := CircuitOf(found, key)], target, members, script, i + 1);
        Weakened(Plan(circuits, target, members, script, i), script, i);
      case Some((c, halfOpen)) =>
        var later := AfterOthers(found[key := c], script[i].during);
        var (ended, seen) := Ended(CircuitOf(later, key), halfOpen, members[i], script[i].endedAt, Reported(VerdictOf(i, script[i].answer)));
        var own := OwnAt(found, target, members, script, i);
        OwnExplained(later[key := ended], i, script, seen);
        if !own.stopped {
          PlanExplained(own.circuits, target, members, script, i + 1);
          ThenExplained(own, Plan(own.circuits, target, members, script, i + 1), script, i);
        }
    }
  }

  lemma EmptyExplained(circuits: CircuitMap, script: seq<Attempt>, i: nat)
    ensures Explained(Account(circuits, None, None, [], [], [], false), script, i)
  {}

  // ---- the release policy, status by status

  /** A status for which another member is asked. */
  predicate AsksNext(status: nat) {
    || status == 401 || status == 403 || status == 404 || status == 408 || status == 409 || status == 429 || status == 451
    || status == 500 || 502 <= status <= 599
  }

  /** After this answer nobody else is asked. */
  predicate Stops(answer: Answer) {
    match answer
    case NotBuilt(failure) => failure == InvalidBridgeRequest || failure == CountTokensUnsupported
    case NotSent => false
    case Answered(status, primed) => if 200 <= status <= 299 then primed != Retry else !AsksNext(status)
  }

  /** This answer is handed back when nobody after it does better. */
  predicate KeptInReserve(answer: Answer) { answer.Answered? && AsksNext(answer.status) }

  /** What is told about an attempt, if anything. */
  function Told(answer: Answer): seq<HealthOutcome> {
    match answer
    case NotBuilt(failure) => [NotPrepared(failure)]
    case NotSent => [TransportFailure]
    case Answered(status, primed) =>
      if 200 <= status <= 299 then [if primed == Committed then Success else SemanticFailure]
      else if AsksNext(status) then [RetryableStatus]
      else []
  }

  /** What the caller gets, from the answers of the members that were attempted. */
  ghost predicate Settled(script: seq<Attempt>, attempts: seq<nat>, routed: Option<Routed>, failure: Option<Failure>)
    requires forall k :: 0 <= k < |attempts| ==> attempts[k] < |script|
  {
    var n := |attempts|;
    && (forall k :: 0 <= k < n - 1 ==> !Stops(script[attempts[k]].answer))
    && (n > 0 && Stops(script[attempts[n - 1]].answer) ==>
          match script[attempts[n - 1]].answer
          case Answered(status, primed) =>
            routed == Some(Routed(attempts[n - 1], status, 200 <= status <= 299 && primed == CommittedFailure))
          case _ => routed == None)
    && (!(n > 0 && Stops(script[attempts[n - 1]].answer)) ==>
          match routed
          case None => forall k :: 0 <= k < n ==> !KeptInReserve(script[attempts[k]].answer)
          case Some(r) =>
            exists k ::
              && 0 <= k < n && r.member == attempts[k] && KeptInReserve(script[attempts[k]].answer)
              && r == Routed(attempts[k], script[attempts[k]].answer.status, false)
              && forall j :: k < j < n ==> !KeptInReserve(script[attempts[j]].answer))
    && failure == if n > 0 && script[attempts[n - 1]].answer.NotBuilt? then Some(script[attempts[n - 1]].answer.failure) else None
  }

  lemma VerdictTells(member: nat, answer: Answer)
    ensures var v := VerdictOf(member, answer);
            && ((v.Terminal? || v.Final?) <==> Stops(answer))
            && (v.Fallback? <==> KeptInReserve(answer))
            && (v.Fallback? ==> v.routed == Routed(member, answer.status, false))
            && (v.Final? ==> answer.Answered?
                             && v.routed == Routed(member, answer.status, 200 <= answer.status <= 299 && answer.primed == CommittedFailure))
            && (v.Terminal? ==> answer.NotBuilt?)
            && Told(answer) == (if Reported(v).Some? then [Reported(v).value] else [])
  {}

  lemma {:induction false} FallbackTells(attempts: seq<nat>, script: seq<Attempt>)
    requires forall k :: 0 <= k < |attempts| ==> attempts[k] < |script|
    ensures match LastFallback(attempts, script)
            case None => forall k :: 0 <= k < |attempts| ==> !KeptInReserve(script[attempts[k]].answer)
            case Some(r) =>
              exists k ::
                && 0 <= k < |attempts| && r.member == attempts[k] && KeptInReserve(script[attempts[k]].answer)
                && r == Routed(attempts[k], script[attempts[k]].answer.status, false)
                && forall j :: k < j < |attempts| ==> !KeptInReserve(script[attempts[j]].answer)
    decreases |attempts|
  {
    hide VerdictOf, KeptInReserve;
    if attempts != [] {
      var last := attempts[|attempts| - 1];
      VerdictTells(last, script[last].answer);
      FallbackTells(attempts[..|attempts| - 1], script);
    }
  }

  /** An account that can be explained hands back what the release policy says. */
  lemma ExplainedSettles(a: Account, script: seq<Attempt>)
    requires Explained(a, script, 0)
    ensures forall k :: 0 <= k < |a.attempts| ==> a.attempts[k] < |script|
    ensures Settled(script, a.attempts, a.routed, a.failure)
  {
    hide VerdictOf, Stops, KeptInReserve, LastFallback;
    forall k | 0 <= k < |a.attempts| ensures Ends(script, a.attempts[k]) <==> Stops(script[a.attempts[k]].answer) {
      VerdictTells(a.attempts[k], script[a.attempts[k]].answer);
    }
    FallbackTells(a.attempts, script);
    if a.stopped {
      VerdictTells(a.attempts[|a.attempts| - 1], script[a.attempts[|a.attempts| - 1]].answer);
      StoppedReturns(script, a.attempts[|a.attempts| - 1]);
    }
  }

  lemma StoppedReturns(script: seq<Attempt>, member: nat)
    requires member < |script| && Ends(script, member)
    ensures match script[member].answer
            case Answered(status, primed) =>
              ReturnedBy(script, member) == Some(Routed(member, status, 200 <= status <= 299 && primed == CommittedFailure))
            case _ => ReturnedBy(script, member) == None
  {}

  /** The outcomes told about a series of attempts. */
  ghost function ToldOf(attempts: seq<nat>, script: seq<Attempt>): seq<HealthOutcome>
    requires forall k :: 0 <= k < |attempts| ==> attempts[k] < |script|
  {
    if attempts == [] then [] else Told(script[attempts[0]].answer) + ToldOf(attempts[1..], script)
  }

  ghost function Outcomes(observations: seq<Observation>): (r: seq<HealthOutcome>)
    ensures |r| == |observations|
  {
    seq(|observations|, k requires 0 <= k < |observations| => observations[k].outcome)
  }

  /** An attempt is told as its answer asks for, and its circuit counts it the same way: once or not, as a failure or not. */
  lemma EndedTells(c: Circuit, halfOpen: bool, provider: ProviderId, now: nat, member: nat, answer: Answer)
    ensures var (after, seen) := Ended(c, halfOpen, provider, now, Reported(VerdictOf(member, answer)));
            && Outcomes(seen) == Told(answer)
            && after.totalAttempts == c.totalAttempts + |Told(answer)|
            && after.failedAttempts == c.failedAttempts + if Told(answer) == [] || Told(answer) == [Success] then 0 else 1
  {
    hide VerdictOf, Reported, Told;
    VerdictTells(member, answer);
  }

  /** The observations, attempt by attempt: a success, the kind of failure, or nothing. */
  lemma {:induction false} ObservationsTell(circuits: CircuitMap, target: Target, members: seq<ProviderId>, script: seq<Attempt>, i: nat)
    requires i <= |members| == |script|
    ensures var a := Plan(circuits, target, members, script, i);
            && (forall k :: 0 <= k < |a.attempts| ==> a.attempts[k] < |script|)
            && Outcomes(a.observations) == ToldOf(a.attempts, script)
    decreases |members| - i
  {
    hide Ended, VerdictOf, Reported, Told, Circuits.Admit, AfterOthers;
    if i < |members| {
      var key := (target, members[i]);
      var found := AfterOthers(circuits, script[i].before);
      match Circuits.Admit(CircuitOf(found, key), script[i].askedAt)
      case None => ObservationsTell(found[key := CircuitOf(found, key)], target, members, script, i + 1);
      case Some((c, halfOpen)) =>
        var later := AfterOthers(found[key := c], script[i].during);
        EndedTells(CircuitOf(later, key), halfOpen, members[i], script[i].endedAt, i, script[i].answer);
        var own := OwnAt(found, target, members, script, i);
        assert ToldOf([i], script) == Told(script[i].answer) + [];
        if !own.stopped {
          var rest := Plan(own.circuits, target, members, script, i + 1);
          ObservationsTell(own.circuits, target, members, script, i + 1);
          assert ([i] + rest.attempts)[1..] == rest.attempts;
          assert Outcomes(own.observations + rest.observations) == Outcomes(own.observations) + Outcomes(rest.observations);
        }
    }
  }

  /** No other request works on this circuit during the call. */
  ghost predicate LeftAlone(script: seq<Attempt>, key: Key) {
    forall i :: 0 <= i < |script| ==> Untouched(script[i].before, key) && Untouched(script[i].during, key)
  }

  /** From `i` on the members are different providers with closed circuits that nobody else works on. */
  ghost predicate AllClosed(circuits: CircuitMap, target: Target, members: seq<ProviderId>, script: seq<Attempt>, i: nat)
    requires |members| == |script|
  {
    && (forall j, k :: i <= j < k < |members| ==> members[j] != members[k])
    && (forall j :: i <= j < |members| ==> CircuitOf(circuits, (target, members[j])).phase.Closed? && LeftAlone(script, (target, members[j])))
  }

  ghost predicate NobodyStops(script: seq<Attempt>, from: nat, upto: nat)
    requires upto <= |script|
  {
    forall j :: from <= j < upto ==> !Stops(script[j].answer)
  }

  /** While the circuits are closed, exactly those members are asked before whom nobody stopped the plan. */
  lemma {:induction false} ClosedAreAsked(circuits: CircuitMap, target: Target, members: seq<ProviderId>, script: seq<Attempt>, i: nat)
    requires i <= |members| == |script| && AllClosed(circuits, target, members, script, i)
    ensures var a := Plan(circuits, target, members, script, i);
            forall k :: i <= k < |script| ==> (k in a.attempts <==> NobodyStops(script, i, k))
    ensures forall k <- Plan(circuits, target, members, script, i).attempts :: i <= k
    decreases |members| - i
  {
    hide Ended, Reported, VerdictOf, AfterOthers, Stops, Circuits.Admit, LeftAlone;
    if i < |members| {
      FirstIsAsked(circuits, target, members, script, i);
      var own := OwnAt(AfterOthers(circuits, script[i].before), target, members, script, i);
      VerdictTells(i, script[i].answer);
      if !own.stopped {
        ClosedAreAsked(own.circuits, target, members, script, i + 1);
      }
      var a := Plan(circuits, target, members, script, i);
      assert own.attempts == [i] && a.attempts[0] == i;
      forall k | i <= k < |script| ensures k in a.attempts <==> NobodyStops(script, i, k) {
        if i < k {
          assert NobodyStops(script, i, k) <==> !Stops(script[i].answer) && NobodyStops(script, i + 1, k);
        }
      }
    }
  }

  lemma FirstIsAsked(circuits: CircuitMap, target: Target, members: seq<ProviderId>, script: seq<Attempt>, i: nat)
    requires i < |members| == |script| && AllClosed(circuits, target, members, script, i)
    ensures var found := AfterOthers(circuits, script[i].before);
            && Circuits.Admit(CircuitOf(found, (target, members[i])), script[i].askedAt).Some?
            && AllClosed(OwnAt(found, target, members, script, i).circuits, target, members, script, i + 1)
  {
    hide Ended, Reported, VerdictOf, AfterOthers;
    var at := (target, members[i]);
    var found := AfterOthers(circuits, script[i].before);
    OthersKeep(circuits, script[i].before);
    var c := Circuits.Admit(CircuitOf(found, at), script[i].askedAt).value.0;
    OthersKeep(found[at := c], script[i].during);
    forall j | i + 1 <= j < |members|
      ensures CircuitOf(OwnAt(found, target, members, script, i).circuits, (target, members[j])).phase.Closed?
    {
      assert members[i] != members[j];
    }
  }

  // ---- circuits

  predicate InFlight(circuits: CircuitMap, key: Key) {
    CircuitOf(circuits, key).phase.HalfOpen? && CircuitOf(circuits, key).phase.inFlight
  }

  /**
    The moment an attempt is over, whatever others made of its circuit meanwhile, the circuit is not in
    flight, unless the permit was one of a closed phase and is dropped unreported: that changes nothing.
  */
  lemma EndedNotInFlight(c: Circuit, halfOpen: bool, provider: ProviderId, now: nat, reported: Option<HealthOutcome>)
    ensures var after := Ended(c, halfOpen, provider, now, reported).0;
            if halfOpen || reported.Some? then !(after.phase.HalfOpen? && after.phase.inFlight) else after == c
  {}

  lemma AdmittedNotInFlight(c: Circuit, now: nat)
    requires Circuits.Admit(c, now).Some?
    ensures !(c.phase.HalfOpen? && c.phase.inFlight)
    ensures !Circuits.Admit(c, now).value.1 ==> Circuits.Admit(c, now).value.0 == c
  {}

  /** However it ends, the call leaves every circuit in flight or not as it was, if others left it alone. */
  lemma {:induction false} PlanLeavesNothingInFlight(circuits: CircuitMap, target: Target, members: seq<ProviderId>,
                                                     script: seq<Attempt>, i: nat, key: Key)
    requires i <= |members| == |script| && LeftAlone(script, key)
    ensures InFlight(Plan(circuits, target, members, script, i).circuits, key) <==> InFlight(circuits, key)
    decreases |members| - i
  {
    hide Ended, Reported, VerdictOf, Circuits.Admit, AfterOthers;
    if i < |members| {
      var at := (target, members[i]);
      var found := AfterOthers(circuits, script[i].before);
      OthersKeep(circuits, script[i].before);
      match Circuits.Admit(CircuitOf(found, at), script[i].askedAt)
      case None =>
        PlanLeavesNothingInFlight(found[at := CircuitOf(found, at)], target, members, script, i + 1, key);
      case Some((c, halfOpen)) =>
        var reported := Reported(VerdictOf(i, script[i].answer));
        var later := AfterOthers(found[at := c], script[i].during);
        OthersKeep(found[at := c], script[i].during);
        var (ended, seen) := Ended(CircuitOf(later, at), halfOpen, members[i], script[i].endedAt, reported);
        AdmittedNotInFlight(CircuitOf(found, at), script[i].askedAt);
        EndedNotInFlight(CircuitOf(later, at), halfOpen, members[i], script[i].endedAt, reported);
        PlanLeavesNothingInFlight(later[at := ended], target, members, script, i + 1, key);
    }
  }

  // ---- the loop

  datatype Result = Result(routed: Option<Routed>, observations: seq<Observation>, failure: Option<Failure>, lastAttempt: Option<nat>)

  function Accumulated(circuits: CircuitMap, lastResponse: Option<Routed>, lastFailure: Option<Failure>,
                       observations: seq<Observation>, attempts: seq<nat>, sent: seq<nat>): Account {
    Account(circuits, lastResponse, lastFailure, observations, attempts, sent, false)
  }

  lemma ThenAssociates(a: Account, b: Account, c: Account)
    requires !b.stopped
    ensures Then(Then(a, b), c) == Then(a, Then(b, c))
  {
    assert (a.observations + b.observations) + c.observations == a.observations + (b.observations + c.observations);
    assert (a.attempts + b.attempts) + c.attempts == a.attempts + (b.attempts + c.attempts);
    assert (a.sent + b.sent) + c.sent == a.sent + (b.sent + c.sent);
  }

  /** The account of the whole is what was accumulated, then the rest of the plan. */
  ghost predicate OnTrack(whole: Account, acc: Account, target: Target, members: seq<ProviderId>, script: seq<Attempt>, i: nat)
    requires i <= |members| == |script|
  {
    whole == Then(acc, Plan(acc.circuits, target, members, script, i))
  }

  lemma RefusedStaysOnTrack(whole: Account, acc: Account, target: Target, members: seq<ProviderId>, script: seq<Attempt>, i: nat)
    requires i < |members| == |script| && OnTrack(whole, acc, target, members, script, i)
    requires Circuits.Admit(CircuitOf(AfterOthers(acc.circuits, script[i].before), (target, members[i])), script[i].askedAt).None?
    ensures var key := (target, members[i]);
            var found := AfterOthers(acc.circuits, script[i].before);
            OnTrack(whole, acc.(circuits := found[key := CircuitOf(found, key)]), target, members, script, i + 1)
  {
    hide AfterOthers, Circuits.Admit;
  }

  lemma AttemptStaysOnTrack(whole: Account, acc: Account, target: Target, members: seq<ProviderId>, script: seq<Attempt>, i: nat)
    requires i < |members| == |script| && OnTrack(whole, acc, target, members, script, i)
    requires Circuits.Admit(CircuitOf(AfterOthers(acc.circuits, script[i].before), (target, members[i])), script[i].askedAt).Some?
    ensures var own := OwnAt(AfterOthers(acc.circuits, script[i].before), target, members, script, i);
            if own.stopped then whole == Then(acc, own) else OnTrack(whole, Then(acc, own), target, members, script, i + 1)
  {
    hide Ended, Own, Then, Circuits.Admit, AfterOthers;
    var own := OwnAt(AfterOthers(acc.circuits, script[i].before), target, members, script, i);
    assert own.circuits == Then(acc, own).circuits by { LastCircuits(acc, own); }
    if !own.stopped {
      ThenAssociates(acc, own, Plan(own.circuits, target, members, script, i + 1));
    }
  }

  lemma LastCircuits(a: Account, b: Account)
    ensures Then(a, b).circuits == b.circuits
  {}

  /** The permit of one attempt is given back in the way the verdict asks for. */
  method EndAttempt(health: RouteHealthRuntime, permit: Permit, now: nat, reported: Option<HealthOutcome>)
    returns (seen: seq<Observation>)
    requires health.Valid() && permit in health.outstanding && permit.key in health.circuits
    modifies health
    ensures health.Valid() && health.outstanding == old(health.outstanding) - multiset{permit}
    ensures var (c, observed) := Ended(old(health.circuits)[permit.key], permit.halfOpen, permit.key.1, now, reported);
            health.circuits == old(health.circuits)[permit.key := c] && seen == observed
  {
    if reported.None? {
      health.Drop(permit);
      seen := [];
    } else if reported == Some(Success) {
      var observation := health.Succeed(permit);
      seen := [observation];
    } else {
      var observation := health.Fail(permit, now, reported.value);
      seen := [observation];
    }
  }

  /** One admitted attempt, from preparing the request to giving the permit back. */
  method Perform(health: RouteHealthRuntime, permit: Permit, member: nat, attempt: Attempt)
    returns (seen: seq<Observation>, verdict: Verdict)
    requires health.Valid() && permit in health.outstanding && permit.key in health.circuits
    modifies health
    ensures health.Valid() && health.outstanding == old(health.outstanding) - multiset{permit}
    ensures verdict == VerdictOf(member, attempt.answer)
    ensures var later := AfterOthers(old(health.circuits), attempt.during);
            var (c, observed) := Ended(CircuitOf(later, permit.key), permit.halfOpen, permit.key.1, attempt.endedAt, Reported(verdict));
            health.circuits == later[permit.key := c] && seen == observed
  {
    hide Ended, AfterOthers;
    OthersKeep(health.circuits, attempt.during);
    health.LetOthers(attempt.during);
    if attempt.answer.NotBuilt? {
      var failure := attempt.answer.failure;
      seen := EndAttempt(health, permit, attempt.endedAt, Some(NotPrepared(failure)));
      return seen, if failure.IsTerminal() then Terminal(failure) else Passed(NotPrepared(failure), Some(failure));
    }
    if attempt.answer.NotSent? {
      seen := EndAttempt(health, permit, attempt.endedAt, Some(TransportFailure));
      return seen, Passed(TransportFailure, None);
    }
    var status := attempt.answer.status;
    var committedFailure := false;
    if IsSuccess(status) {
      if attempt.answer.primed.CommittedFailure? {
        committedFailure := true;
      } else if attempt.answer.primed.Retry? {
        seen := EndAttempt(health, permit, attempt.endedAt, Some(SemanticFailure));
        return seen, Passed(SemanticFailure, None);
      }
    }
    var outcome :=
      if committedFailure then Some(SemanticFailure)
      else if IsSuccess(status) then Some(Success)
      else if RetryableCode(status) then Some(RetryableStatus)
      else None;
    seen := EndAttempt(health, permit, attempt.endedAt, outcome);
    var routed := Routed(member, status, committedFailure);
    verdict := if RetryableCode(status) then Fallback(routed) else Final(routed, outcome);
  }

  /** One turn of the loop: ask for a permit and, if there is one, make the attempt. */
  method TryMember(health: RouteHealthRuntime, target: Target, members: seq<ProviderId>, script: seq<Attempt>, i: nat)
    returns (seen: seq<Observation>, tried: Option<Verdict>)
    requires health.Valid() && i < |members| == |script|
    modifies health
    ensures health.Valid() && health.outstanding == old(health.outstanding)
    ensures var key := (target, members[i]);
            var found := AfterOthers(old(health.circuits), script[i].before);
            match Circuits.Admit(CircuitOf(found, key), script[i].askedAt)
            case None => tried.None? && health.circuits == found[key := CircuitOf(found, key)]
            case Some(_) =>
              && tried == Some(VerdictOf(i, script[i].answer))
              && OwnAt(found, target, members, script, i) == Own(health.circuits, i, script[i].answer, seen)
  {
    hide Ended, VerdictOf, Reported, Circuits.Admit, OwnAt, Sound, Own, AfterOthers;
    health.LetOthers(script[i].before);
    ghost var circuits, outstanding := health.circuits, health.outstanding;
    var permit := health.Admit(target, members[i], script[i].askedAt);
    if permit.None? {
      return [], None;
    }
    ghost var admitted := health.circuits;
    var verdict;
    seen, verdict := Perform(health, permit.value, i, script[i]);
    assert outstanding + multiset{permit.value} - multiset{permit.value} == outstanding;
    PerformedIsOwn(circuits, target, members, script, i, admitted, health.circuits, permit.value, seen);
    tried := Some(verdict);
  }

  /** `route_pinned_plan`. The attempts and the requests sent are recorded for the contract only. */
  method RoutePinnedPlan(health: RouteHealthRuntime, target: Target, members: seq<ProviderId>, script: seq<Attempt>)
    returns (r: Result, ghost attempts: seq<nat>, ghost sent: seq<nat>)
    requires health.Valid() && |members| == |script|
    modifies health
    ensures health.Valid() && health.outstanding == old(health.outstanding)
    ensures var whole := Plan(old(health.circuits), target, members, script, 0);
            && health.circuits == whole.circuits && r.routed == whole.routed && r.failure == whole.failure
            && r.observations == whole.observations && attempts == whole.attempts && sent == whole.sent
            && r.lastAttempt == (if attempts == [] then None else Some(attempts[|attempts| - 1]))
            && Explained(whole, script, 0)
    ensures (forall k :: 0 <= k < |attempts| ==> attempts[k] < |script|) && Settled(script, attempts, r.routed, r.failure)
    ensures forall key: Key :: LeftAlone(script, key) ==> (InFlight(health.circuits, key) <==> InFlight(old(health.circuits), key))
  {
    hide InFlight, Explained, Plan, Ended, VerdictOf, Reported, Settled, OnTrack, Circuits.Admit, OwnAt, Sound, Then, Own, AfterOthers, LeftAlone;
    var lastResponse: Option<Routed> := None;
    var lastFailure: Option<Failure> := None;
    var lastAttempt: Option<nat> := None;
    var observations: seq<Observation> := [];
    attempts, sent := [], [];
    ghost var whole := Plan(health.circuits, target, members, script, 0);
    ghost var outstanding := health.outstanding;
    StartsOnTrack(health.circuits, target, members, script);
    for index := 0 to |members|
      invariant health.Valid() && health.outstanding == outstanding
      invariant OnTrack(whole, Accumulated(health.circuits, lastResponse, lastFailure, observations, attempts, sent),
                        target, members, script, index)
      invariant lastAttempt == (if attempts == [] then None else Some(attempts[|attempts| - 1]))
    {
      ghost var acc := Accumulated(health.circuits, lastResponse, lastFailure, observations, attempts, sent);
      var seen, tried := TryMember(health, target, members, script, index);
      if tried.None? {
        RefusedStaysOnTrack(whole, acc, target, members, script, index);
        continue;
      }
      ghost var own := OwnAt(AfterOthers(acc.circuits, script[index].before), target, members, script, index);
      AttemptStaysOnTrack(whole, acc, target, members, script, index);
      Advance(acc, health.circuits, index, script[index].answer, seen);
      lastAttempt := Some(index);
      attempts := attempts + [index];
      sent := if script[index].answer.NotBuilt? then sent else sent + [index];
      observations := observations + seen;
      match tried.value {
        case Terminal(failure) =>
          return Result(None, observations, Some(failure), lastAttempt), attempts, sent;
        case Final(routed, _) =>
          return Result(Some(routed), observations, None, lastAttempt), attempts, sent;
        case Fallback(routed) =>
          lastResponse, lastFailure := Some(routed), None;
          if index + 1 == |members| {
            EndsOnTrack(whole, Then(acc, own), target, members, script);
            return Result(Some(routed), observations, None, lastAttempt), attempts, sent;
          }
        case Passed(_, problem) =>
          lastFailure := problem;
      }
    }
    EndsOnTrack(whole, Accumulated(health.circuits, lastResponse, lastFailure, observations, attempts, sent),
                target, members, script);
    r := Result(lastResponse, observations, lastFailure, lastAttempt);
  }

  /** What an attempt adds to an account, verdict by verdict. */
  lemma Advance(acc: Account, circuits: CircuitMap, i: nat, answer: Answer, seen: seq<Observation>)
    ensures var v := VerdictOf(i, answer);
            var next := Then(acc, Own(circuits, i, answer, seen));
            && next.circuits == circuits && next.observations == acc.observations + seen && next.attempts == acc.attempts + [i]
            && next.sent == (if answer.NotBuilt? then acc.sent else acc.sent + [i])
            && next.routed == (match v
                               case Terminal(_) => None
                               case Final(routed, _) => Some(routed)
                               case Fallback(routed) => Some(routed)
                               case Passed(_, _) => acc.routed)
            && next.failure == (match v
                                case Terminal(failure) => Some(failure)
                                case Passed(_, problem) => problem
                                case _ => None)
            && Own(circuits, i, answer, seen).stopped == next.stopped == (v.Terminal? || v.Final?)
  {
    hide VerdictOf;
    assert answer.NotBuilt? ==> acc.sent + [] == acc.sent;
  }

  /** What `Admit` and `Perform` did together is what the account adds. */
  lemma PerformedIsOwn(circuits: CircuitMap, target: Target, members: seq<ProviderId>, script: seq<Attempt>, i: nat,
                       admitted: CircuitMap, after: CircuitMap, permit: Permit, seen: seq<Observation>)
    requires i < |members| == |script| && permit.key == (target, members[i])
    requires var asked := Circuits.Admit(CircuitOf(circuits, permit.key), script[i].askedAt);
             asked.Some? && permit.halfOpen == asked.value.1 && admitted == circuits[permit.key := asked.value.0]
    requires var later := AfterOthers(admitted, script[i].during);
             var (c, observed) := Ended(CircuitOf(later, permit.key), permit.halfOpen, members[i], script[i].endedAt,
                                        Reported(VerdictOf(i, script[i].answer)));
             after == later[permit.key := c] && seen == observed
    ensures OwnAt(circuits, target, members, script, i) == Own(after, i, script[i].answer, seen)
  {
    hide Circuits.Admit, Ended, VerdictOf, Reported, Own, AfterOthers;
  }

  lemma StartsOnTrack(circuits: CircuitMap, target: Target, members: seq<ProviderId>, script: seq<Attempt>)
    requires |members| == |script|
    ensures OnTrack(Plan(circuits, target, members, script, 0), Accumulated(circuits, None, None, [], [], []),
                    target, members, script, 0)
    ensures var whole := Plan(circuits, target, members, script, 0);
            && Explained(whole, script, 0) && (forall k :: 0 <= k < |whole.attempts| ==> whole.attempts[k] < |script|)
            && Settled(script, whole.attempts, whole.routed, whole.failure)
    ensures forall key: Key :: LeftAlone(script, key) ==>
              (InFlight(Plan(circuits, target, members, script, 0).circuits, key) <==> InFlight(circuits, key))
  {
    hide Circuits.Admit, Ended, InFlight, AfterOthers, OwnAt, LeftAlone;
    forall key: Key | LeftAlone(script, key) ensures InFlight(Plan(circuits, target, members, script, 0).circuits, key) <==> InFlight(circuits, key) {
      PlanLeavesNothingInFlight(circuits, target, members, script, 0, key);
    }
    var whole := Plan(circuits, target, members, script, 0);
    PlanExplained(circuits, target, members, script, 0);
    ExplainedSettles(whole, script);
    assert [] + whole.attempts == whole.attempts && [] + whole.sent == whole.sent;
    assert [] + whole.observations == whole.observations;
  }

  lemma EndsOnTrack(whole: Account, acc: Account, target: Target, members: seq<ProviderId>, script: seq<Attempt>)
    requires |members| == |script| && OnTrack(whole, acc, target, members, script, |members|) && !acc.stopped
    ensures whole == acc
  {}
}
