/**
  Admission and draining on one packed word: bit 0 says that the runtime is reserved, the rest
  counts the requests under way.
*/
module Admission {
  import opened Bytes
  import opened Words

  const RESERVED_BIT: nat := 1
  const ACTIVE_REQUEST_INCREMENT: nat := 2

  predicate IsReserved(word: nat) { word % 2 == 1 }

  function WithBit(word: nat): nat { if IsReserved(word) then word else word + RESERVED_BIT }

  function WithoutBit(word: nat): nat { if IsReserved(word) then word - RESERVED_BIT else word }

  /** What somebody else does to the word between two of our own accesses. */
  datatype Other = Nothing | RequestBegins | RequestEnds | Reserves | Resumes

  function Disturbed(word: nat, other: Other): nat {
    match other
    case Nothing => word                       // a spurious failure of the weak exchange
    case RequestBegins => if !IsReserved(word) && word + 2 <= MAX_U64 then word + 2 else word
    case RequestEnds => if word >= 2 then word - 2 else word
    case Reserves => if word < MAX_U64 || IsReserved(word) then WithBit(word) else word
    case Resumes => WithoutBit(word)
  }

  function AfterOthers(word: nat, others: seq<Other>): nat {
    if others == [] then word else Disturbed(AfterOthers(word, others[..|others| - 1]), others[|others| - 1])
  }

  lemma OneMore(word: nat, others: seq<Other>, k: nat)
    requires k < |others|
    ensures AfterOthers(word, others[..k + 1]) == Disturbed(AfterOthers(word, others[..k]), others[k])
  {
    assert others[..k + 1][..k] == others[..k];
  }

  class ModelAdmission {
    var state: nat

    constructor ()
      ensures state == 0
    {
      state := 0;
    }

    /** `try_reserve_idle`: one exchange of 0 for the reserve bit. */
    method TryReserveIdle() returns (ok: bool)
      modifies this
      ensures ok <==> old(state) == 0
      ensures state == if ok then 1 else old(state)
    {
      ok := state == 0;
      if ok {
        state := RESERVED_BIT;
      }
    }

    /**
      The exchange loop. `others` is what happens before each exchange that fails; when it is used
      up the exchange goes through. The result is decided at one moment `at`, by the word as it is then.
    */
    method BeginDraining(others: seq<Other>) returns (ok: bool, at: nat)
      modifies this
      ensures at <= |others|
      ensures ok <==> AfterOthers(old(state), others[..at]) % 2 == 0
      ensures state == AfterOthers(old(state), others[..at]) + if ok then 1 else 0
    {
      var observed := state;
      at := 0;
      while true
        invariant at <= |others| && observed == state == AfterOthers(old(state), others[..at])
        decreases |others| - at
      {
        if observed % 2 != 0 {
          return false, at;
        }
        if at == |others| {
          state := observed + RESERVED_BIT;
          return true, at;
        }
        OneMore(old(state), others, at);
        state := Disturbed(state, others[at]);
        observed := state;
        at := at + 1;
      }
    }

    /** The loop of `resume`: the bit goes, every request stays. */
    method Resume(others: seq<Other>)
      modifies this
      ensures state == AfterOthers(old(state), others) - AfterOthers(old(state), others) % 2
    {
      var observed := state;
      var at := 0;
      while at < |others|
        invariant at <= |others| && observed == state == AfterOthers(old(state), others[..at])
      {
        OneMore(old(state), others, at);
        state := Disturbed(state, others[at]);
        observed := state;
        at := at + 1;
      }
      assert others[..at] == others;
      state := observed - observed % 2;
    }

    /** `ActiveRequestGuard::try_begin`: a guard exactly when the word was free and could still grow. */
    method TryBegin(others: seq<Other>) returns (ok: bool, at: nat)
      modifies this
      ensures at <= |others|
      ensures var word := AfterOthers(old(state), others[..at]);
              && (ok <==> word % 2 == 0 && word + 2 <= 0xFFFF_FFFF_FFFF_FFFF)
              && state == if ok then word + 2 else word
    {
      var observed := state;
      at := 0;
      while true
        invariant at <= |others| && observed == state == AfterOthers(old(state), others[..at])
        decreases |others| - at
      {
        if observed % 2 != 0 || observed + ACTIVE_REQUEST_INCREMENT > MAX_U64 {
          return false, at;
        }
        if at == |others| {
          state := observed + ACTIVE_REQUEST_INCREMENT;
          return true, at;
        }
        OneMore(old(state), others, at);
        state := Disturbed(state, others[at]);
        observed := state;
        at := at + 1;
      }
    }

    /** Dropping a guard: whether the waiter must be notified. */
    method End() returns (notifies: bool)
      requires state >= 2
      modifies this
      ensures state == old(state) - 2
      ensures notifies <==> old(state) == 3
    {
      var previous := state;
      state := state - ACTIVE_REQUEST_INCREMENT;
      notifies := previous == RESERVED_BIT + ACTIVE_REQUEST_INCREMENT;
    }
  }
}

/** All interleavings of the atomic steps of any number of requests and reservers. */
module AdmissionRuns {
  import opened Bytes
  import opened Words
  import opened Admission

  type Id = nat

  /** Where a request task stands. */
  datatype Task = Outside | Observing(observed: nat) | Active | Notifying

  /** Where a task that reserves the runtime stands. */
  datatype Reserver =
    | Away
    | Reserving(observed: nat)
    | Holding
    | Preparing                    // has a fresh `notified()`, has not looked at the word yet
    | Awaiting                     // has seen requests under way and waits for the notification
    | Resuming(observed: nat)
    | Done                         // committed: the reservation is never given back

  datatype State = State(word: nat, permit: bool, tasks: map<Id, Task>, reservers: map<Id, Reserver>)

  const START: State := State(0, false, map[], map[])

  function TaskOf(s: State, t: Id): Task { if t in s.tasks then s.tasks[t] else Outside }

  function ReserverOf(s: State, c: Id): Reserver { if c in s.reservers then s.reservers[c] else Away }

  predicate Holds(r: Reserver) { r.Holding? || r.Preparing? || r.Awaiting? || r.Resuming? || r.Done? }

  function ActiveTasks(s: State): set<Id> { set t | t in s.tasks && s.tasks[t].Active? }

  function Holders(s: State): set<Id> { set c | c in s.reservers && Holds(s.reservers[c]) }

  datatype Step =
    | LoadForBegin(t: Id)
    | ExchangeForBegin(t: Id, spurious: bool)
    | EndRequest(t: Id)
    | NotifyOne(t: Id)
    | LoadForReserve(c: Id)
    | ExchangeForReserve(c: Id, spurious: bool)
    | ReserveIdle(c: Id)
    | PrepareWait(c: Id)
    | LookAtWord(c: Id)
    | WakeUp(c: Id)
    | StopWaiting(c: Id)
    | Commit(c: Id)
    | LoadForResume(c: Id)
    | ExchangeForResume(c: Id, spurious: bool)

  predicate Enabled(s: State, step: Step) {
    match step
    case LoadForBegin(t) => TaskOf(s, t).Outside?
    case ExchangeForBegin(t, _) => TaskOf(s, t).Observing?
    case EndRequest(t) => TaskOf(s, t).Active?
    case NotifyOne(t) => TaskOf(s, t).Notifying?
    case LoadForReserve(c) => ReserverOf(s, c).Away?
    case ExchangeForReserve(c, _) => ReserverOf(s, c).Reserving?
    case ReserveIdle(c) => ReserverOf(s, c).Away?
    case PrepareWait(c) => ReserverOf(s, c).Holding?
    case LookAtWord(c) => ReserverOf(s, c).Preparing?
    case WakeUp(c) => ReserverOf(s, c).Awaiting? && s.permit
    case StopWaiting(c) => ReserverOf(s, c).Preparing? || ReserverOf(s, c).Awaiting?
    case Commit(c) => ReserverOf(s, c).Holding?
    case LoadForResume(c) => ReserverOf(s, c).Holding?
    case ExchangeForResume(c, _) => ReserverOf(s, c).Resuming?
  }

  function SetTask(s: State, t: Id, task: Task): State { s.(tasks := s.tasks[t := task]) }

  function SetReserver(s: State, c: Id, r: Reserver): State { s.(reservers := s.reservers[c := r]) }

  /** What a request task does with the word it has just observed. */
  function ObservedForBegin(observed: nat): Task {
    if IsReserved(observed) || observed + 2 > MAX_U64 then Outside else Observing(observed)
  }

  function Next(s: State, step: Step): State
    requires Enabled(s, step)
  {
    match step
    case LoadForBegin(t) => SetTask(s, t, ObservedForBegin(s.word))
    case ExchangeForBegin(t, spurious) =>
      if !spurious && s.word == TaskOf(s, t).observed then SetTask(s, t, Active).(word := s.word + 2)
      else SetTask(s, t, ObservedForBegin(s.word))
    case EndRequest(t) =>
      SetTask(s, t, if s.word == 3 then Notifying else Outside).(word := if s.word >= 2 then s.word - 2 else 0)
    case NotifyOne(t) => SetTask(s, t, Outside).(permit := true)
    case LoadForReserve(c) => SetReserver(s, c, if IsReserved(s.word) then Away else Reserving(s.word))
    case ExchangeForReserve(c, spurious) =>
      if !spurious && s.word == ReserverOf(s, c).observed then SetReserver(s, c, Holding).(word := WithBit(s.word))
      else SetReserver(s, c, if IsReserved(s.word) then Away else Reserving(s.word))
    case ReserveIdle(c) => if s.word == 0 then SetReserver(s, c, Holding).(word := 1) else s
    case PrepareWait(c) => SetReserver(s, c, Preparing)
    case LookAtWord(c) => SetReserver(s, c, if s.word == 1 then Holding else Awaiting)
    case WakeUp(c) => SetReserver(s, c, Preparing).(permit := false)
    case StopWaiting(c) => SetReserver(s, c, Holding)
    case Commit(c) => SetReserver(s, c, if s.word == 1 then Done else Resuming(s.word))
    case LoadForResume(c) => SetReserver(s, c, Resuming(s.word))
    case ExchangeForResume(c, spurious) =>
      if !spurious && s.word == ReserverOf(s, c).observed then SetReserver(s, c, Away).(word := WithoutBit(s.word))
      else SetReserver(s, c, Resuming(s.word))
  }

  ghost function Exec(steps: seq<Step>): Option<State> {
    if steps == [] then Some(START)
    else
      match Exec(steps[..|steps| - 1])
      case None => None
      case Some(s) => if Enabled(s, steps[|steps| - 1]) then Some(Next(s, steps[|steps| - 1])) else None
  }

  // ---- the invariant

  /** The packed word is the pair (reserved, number of guards). */
  ghost predicate WordIsPair(s: State) {
    && |Holders(s)| <= 1
    && s.word == 2 * |ActiveTasks(s)| + |Holders(s)|
    && s.word <= MAX_U64
  }

  /** What a task remembers of the word could be reserved or counted up. */
  ghost predicate MemoriesFree(s: State) {
    && (forall t :: TaskOf(s, t).Observing? ==> !IsReserved(TaskOf(s, t).observed) && TaskOf(s, t).observed + 2 <= MAX_U64)
    && (forall c :: ReserverOf(s, c).Reserving? ==> !IsReserved(ReserverOf(s, c).observed))
  }

  /** A committed reservation has no request beside it. */
  ghost predicate DoneIsIdle(s: State) {
    (exists c :: ReserverOf(s, c).Done?) ==> ActiveTasks(s) == {}
  }

  /** A waiter that nobody is left to wake has its wake-up coming. */
  ghost predicate WakeUpPending(s: State) {
    (exists c :: ReserverOf(s, c).Awaiting?) && s.word == 1 ==> s.permit || exists t :: TaskOf(s, t).Notifying?
  }

  ghost predicate Sound(s: State) {
    WordIsPair(s) && MemoriesFree(s) && DoneIsIdle(s) && WakeUpPending(s)
  }

  // ---- how steps change the two sets

  lemma SetSize(all: set<Id>, x: Id)
    ensures |all + {x}| == |all| + if x in all then 0 else 1
    ensures |all - {x}| == |all| - if x in all then 1 else 0
  {
    if x in all {
      assert all + {x} == all;
    }
  }

  lemma ActiveAfter(s: State, t: Id, task: Task)
    ensures ActiveTasks(SetTask(s, t, task)) == if task.Active? then ActiveTasks(s) + {t} else ActiveTasks(s) - {t}
    ensures t in ActiveTasks(s) <==> TaskOf(s, t).Active?
    ensures Holders(SetTask(s, t, task)) == Holders(s)
  {}

  lemma HoldersAfter(s: State, c: Id, r: Reserver)
    ensures Holders(SetReserver(s, c, r)) == if Holds(r) then Holders(s) + {c} else Holders(s) - {c}
    ensures c in Holders(s) <==> Holds(ReserverOf(s, c))
    ensures ActiveTasks(SetReserver(s, c, r)) == ActiveTasks(s)
  {}

  lemma OnlyHolder(s: State, c: Id, d: Id)
    requires |Holders(s)| <= 1 && Holds(ReserverOf(s, c)) && Holds(ReserverOf(s, d))
    ensures c == d
  {
    assert {c, d} <= Holders(s);
    if c != d {
      assert |{c, d}| == 2;
      SubsetSize({c, d}, Holders(s));
    }
  }

  lemma SubsetSize(small: set<Id>, large: set<Id>)
    requires small <= large
    ensures |small| <= |large|
  {
    assert large == small + (large - small);
  }

  predicate OfTask(step: Step) {
    step.LoadForBegin? || step.ExchangeForBegin? || step.EndRequest? || step.NotifyOne?
  }

  /** A step of a task changes the active tasks only at that task. */
  lemma TaskStepSets(s: State, step: Step)
    requires Enabled(s, step) && OfTask(step)
    ensures var next := Next(s, step); var now := TaskOf(next, step.t);
            && ActiveTasks(next) == (if now.Active? then ActiveTasks(s) + {step.t} else ActiveTasks(s) - {step.t})
            && |ActiveTasks(next)| == |ActiveTasks(s)| + (if now.Active? then 1 else 0)
                                      - (if TaskOf(s, step.t).Active? then 1 else 0)
            && Holders(next) == Holders(s)
  {
    hide ActiveTasks, Holders, ObservedForBegin;
    var next := Next(s, step);
    ActiveAfter(s, step.t, TaskOf(next, step.t));
    SetSize(ActiveTasks(s), step.t);
    SameSets(next, SetTask(s, step.t, TaskOf(next, step.t)));
  }

  /** A step of a reserver changes the holders only at that reserver. */
  lemma ReserverStepSets(s: State, step: Step)
    requires Enabled(s, step) && !OfTask(step)
    ensures var next := Next(s, step);
            && |Holders(next)| == |Holders(s)| + (if Holds(ReserverOf(next, step.c)) then 1 else 0)
                                  - (if Holds(ReserverOf(s, step.c)) then 1 else 0)
            && ActiveTasks(next) == ActiveTasks(s)
  {
    hide ActiveTasks, Holders, Holds;
    var next := Next(s, step);
    if next != s {
      HoldersAfter(s, step.c, ReserverOf(next, step.c));
      SetSize(Holders(s), step.c);
      SameSets(next, SetReserver(s, step.c, ReserverOf(next, step.c)));
    }
  }

  lemma SameSets(a: State, b: State)
    requires a.tasks == b.tasks && a.reservers == b.reservers
    ensures ActiveTasks(a) == ActiveTasks(b) && Holders(a) == Holders(b)
  {}

  /** Every step keeps the word equal to the pair. */
  lemma StepKeepsPair(s: State, step: Step)
    requires WordIsPair(s) && MemoriesFree(s) && Enabled(s, step)
    ensures WordIsPair(Next(s, step))
  {
    hide ActiveTasks, Holders;
    if OfTask(step) {
      TaskStepSets(s, step);
      if step.EndRequest? {
        ActiveCounts(s, step.t);
      }
    } else {
      ReserverStepSets(s, step);
      if Holds(ReserverOf(s, step.c)) {
        HolderCounts(s, step.c);
      }
    }
  }

  lemma ActiveCounts(s: State, t: Id)
    requires TaskOf(s, t).Active?
    ensures |ActiveTasks(s)| > 0
  {
    assert t in ActiveTasks(s);
  }

  lemma HolderCounts(s: State, c: Id)
    requires Holds(ReserverOf(s, c))
    ensures |Holders(s)| > 0
  {
    assert c in Holders(s);
  }

  lemma StepKeepsMemories(s: State, step: Step)
    requires MemoriesFree(s) && Enabled(s, step)
    ensures MemoriesFree(Next(s, step))
  {
    var next := Next(s, step);
    forall t ensures TaskOf(next, t).Observing? ==> !IsReserved(TaskOf(next, t).observed) && TaskOf(next, t).observed + 2 <= MAX_U64 {
      assert TaskOf(s, t).Observing? ==> !IsReserved(TaskOf(s, t).observed);
    }
    forall c ensures ReserverOf(next, c).Reserving? ==> !IsReserved(ReserverOf(next, c).observed) {
      assert ReserverOf(s, c).Reserving? ==> !IsReserved(ReserverOf(s, c).observed);
    }
  }

  /** While the word is reserved no step adds a request. */
  lemma ReservedNeverGrows(s: State, step: Step)
    requires MemoriesFree(s) && Enabled(s, step) && IsReserved(s.word)
    ensures ActiveTasks(Next(s, step)) <= ActiveTasks(s)
  {
    hide ActiveTasks, Holders;
    if OfTask(step) {
      TaskStepSets(s, step);
    } else {
      ReserverStepSets(s, step);
    }
  }

  /** No step of a reserver, giving the reservation back included, starts or ends a request. */
  lemma ReserversKeepRequests(s: State, step: Step)
    requires Enabled(s, step) && !OfTask(step)
    ensures ActiveTasks(Next(s, step)) == ActiveTasks(s)
  {
    hide ActiveTasks, Holders;
    ReserverStepSets(s, step);
  }

  lemma DoneStays(s: State, step: Step, c: Id)
    requires Enabled(s, step) && ReserverOf(s, c).Done?
    ensures ReserverOf(Next(s, step), c).Done?
  {}

  /** Only a commitment that finds the bare reserve bit is new. */
  lemma NewlyDone(s: State, step: Step, c: Id)
    requires Enabled(s, step) && ReserverOf(Next(s, step), c).Done? && !ReserverOf(s, c).Done?
    ensures step == Commit(c) && s.word == 1
  {}

  lemma StepKeepsDone(s: State, step: Step)
    requires Sound(s) && Enabled(s, step)
    ensures DoneIsIdle(Next(s, step))
  {
    hide ActiveTasks, Holders, Next, Enabled, WakeUpPending;
    var next := Next(s, step);
    if c :| ReserverOf(next, c).Done? {
      HolderWordOdd(s);
      if ReserverOf(s, c).Done? {
        HolderCounts(s, c);
        ReservedNeverGrows(s, step);
      } else {
        NewlyDone(s, step, c);
        CommitHolds(s, c, step);
        ReserversKeepRequests(s, step);
      }
    }
  }

  lemma HolderWordOdd(s: State)
    requires WordIsPair(s)
    ensures |Holders(s)| > 0 ==> IsReserved(s.word)
    ensures s.word == 1 && |Holders(s)| > 0 ==> ActiveTasks(s) == {}
  {
    assert |ActiveTasks(s)| == 0 ==> ActiveTasks(s) == {};
  }

  lemma CommitHolds(s: State, c: Id, step: Step)
    requires Enabled(s, step) && step == Commit(c)
    ensures |Holders(s)| > 0
  {
    HolderCounts(s, c);
  }

  lemma StepKeepsWakeUp(s: State, step: Step)
    requires Sound(s) && Enabled(s, step)
    ensures WakeUpPending(Next(s, step))
  {
    hide ActiveTasks;
    var next := Next(s, step);
    if (exists c :: ReserverOf(next, c).Awaiting?) && next.word == 1 {
      var c :| ReserverOf(next, c).Awaiting?;
      StepKeepsPair(s, step);
      match step
      case EndRequest(t) =>
        assert TaskOf(next, t).Notifying?;
      case NotifyOne(t) =>
      case LookAtWord(d) =>
        if d != c {
          OnlyHolder(s, c, d);
        }
      case WakeUp(d) =>
        OnlyHolder(s, c, d);
      case ExchangeForReserve(d, _) =>
        if next.word != s.word {
          HolderCounts(s, c);
        } else {
          assert ReserverOf(s, c).Awaiting?;
          if t :| TaskOf(s, t).Notifying? {
            assert TaskOf(next, t).Notifying?;
          }
        }
      case ReserveIdle(d) =>
        if next.word != s.word {
          HolderCounts(s, c);
        } else {
          assert next == s;
        }
      case ExchangeForResume(d, _) =>
        OnlyHolder(s, c, d);
      case _ =>
        assert s.word == 1 && ReserverOf(s, c).Awaiting?;
        if t :| TaskOf(s, t).Notifying? {
          assert TaskOf(next, t).Notifying?;
        }
    }
  }

  // ---- over whole runs

  lemma StartIsSound()
    ensures Sound(START)
  {}

  /** Soundness in every reachable state: the pair, idle commitment, no lost wake-up. */
  lemma {:induction false} EveryRunIsSound(steps: seq<Step>)
    requires Exec(steps).Some?
    ensures Sound(Exec(steps).value)
  {
    hide WordIsPair, MemoriesFree, DoneIsIdle, WakeUpPending, Next, Enabled;
    if steps == [] {
      StartIsSound();
    } else {
      var last := |steps| - 1;
      EveryRunIsSound(steps[..last]);
      var s := Exec(steps[..last]).value;
      StepKeepsPair(s, steps[last]);
      StepKeepsMemories(s, steps[last]);
      StepKeepsDone(s, steps[last]);
      StepKeepsWakeUp(s, steps[last]);
    }
  }

  /** Once a reservation is committed, no request is under way then or in any later state of the run. */
  lemma {:induction false} CommitIsFinal(steps: seq<Step>, k: nat, c: Id)
    requires k <= |steps| && Exec(steps).Some? && Exec(steps[..k]).Some? && ReserverOf(Exec(steps[..k]).value, c).Done?
    ensures ReserverOf(Exec(steps).value, c).Done? && ActiveTasks(Exec(steps).value) == {} && Exec(steps).value.word == 1
    decreases |steps|
  {
    hide Next, Enabled;
    EveryRunIsSound(steps);
    if k == |steps| {
      assert steps[..k] == steps;
    } else {
      var last := |steps| - 1;
      assert steps[..last][..k] == steps[..k];
      CommitIsFinal(steps[..last], k, c);
      DoneStays(Exec(steps[..last]).value, steps[last], c);
    }
    HolderCounts(Exec(steps).value, c);
    assert DoneIsIdle(Exec(steps).value);
  }

  /** A commitment that finds the word at the bare reserve bit succeeds; any other gives the reservation back. */
  lemma CommitDecides(steps: seq<Step>, c: Id)
    requires Exec(steps).Some? && Enabled(Exec(steps).value, Commit(c))
    ensures var s := Exec(steps).value;
            ReserverOf(Next(s, Commit(c)), c).Done? <==> ActiveTasks(s) == {}
  {
    EveryRunIsSound(steps);
    HolderCounts(Exec(steps).value, c);
    var s := Exec(steps).value;
    assert |ActiveTasks(s)| == 0 <==> ActiveTasks(s) == {};
  }

  /** Reserving an idle runtime at once succeeds exactly when no request is under way and nobody else holds it. */
  lemma ReserveIdleDecides(steps: seq<Step>, c: Id)
    requires Exec(steps).Some? && Enabled(Exec(steps).value, ReserveIdle(c))
    ensures var s := Exec(steps).value;
            Holds(ReserverOf(Next(s, ReserveIdle(c)), c)) <==> ActiveTasks(s) == {} && Holders(s) == {}
  {
    EveryRunIsSound(steps);
    var s := Exec(steps).value;
    assert |ActiveTasks(s)| == 0 <==> ActiveTasks(s) == {};
    assert |Holders(s)| == 0 <==> Holders(s) == {};
  }

  /** Reserver `c` has held the reservation after each step since step `k`. */
  ghost predicate HeldSince(steps: seq<Step>, k: nat, c: Id) {
    && k < |steps| && Exec(steps).Some? && Holds(ReserverOf(Exec(steps).value, c))
    && (k + 1 == |steps| || HeldSince(steps[..|steps| - 1], k, c))
  }

  /** An idle reservation keeps every request out until it is given back. */
  lemma {:induction false} IdleReservationExcludes(steps: seq<Step>, k: nat, c: Id)
    requires HeldSince(steps, k, c) && steps[k] == ReserveIdle(c)
    ensures ActiveTasks(Exec(steps).value) == {}
    decreases |steps|
  {
    hide Next, Enabled, ActiveTasks, Holders;
    var last := |steps| - 1;
    var s := Exec(steps[..last]).value;
    EveryRunIsSound(steps[..last]);
    if k == last {
      ReserveIdleDecides(steps[..last], c);
      ReserversKeepRequests(s, steps[last]);
    } else {
      IdleReservationExcludes(steps[..last], k, c);
      HolderCounts(s, c);
      HolderWordOdd(s);
      ReservedNeverGrows(s, steps[last]);
    }
  }
}
