/**
  The atomic steps told by the requests under way and the holder of the reservation, without the
  packed word: who is let in, who is turned away, who is woken, and that a drained waiter gets through.
*/
module AdmissionSteps {
  import opened Bytes
  import opened Admission
  import opened AdmissionRuns

  /** Nobody holds the reservation and there is room for one more request. */
  ghost predicate Open(s: State) { Holders(s) == {} && |ActiveTasks(s)| < 0x7FFF_FFFF_FFFF_FFFF }

  /** The word of a sound state, read back as the pair. */
  lemma WordTells(s: State)
    requires Sound(s)
    ensures IsReserved(s.word) <==> Holders(s) != {}
    ensures s.word == 1 <==> Holders(s) != {} && ActiveTasks(s) == {}
    ensures s.word == 0 <==> Holders(s) == {} && ActiveTasks(s) == {}
    ensures s.word == 3 <==> Holders(s) != {} && |ActiveTasks(s)| == 1
    ensures !IsReserved(s.word) && s.word + 2 <= 0xFFFF_FFFF_FFFF_FFFF <==> Open(s)
  {
    assert |ActiveTasks(s)| == 0 <==> ActiveTasks(s) == {};
    assert |Holders(s)| == 0 <==> Holders(s) == {};
  }

  /** Each step as it can be taken: by a task or reserver that has come that far. */
  lemma WhoCan(s: State, t: Id, c: Id, spurious: bool)
    ensures match TaskOf(s, t)
            case Outside => Enabled(s, LoadForBegin(t))
            case Observing(_) => Enabled(s, ExchangeForBegin(t, spurious))
            case Active => Enabled(s, EndRequest(t))
            case Notifying => Enabled(s, NotifyOne(t))
    ensures match ReserverOf(s, c)
            case Away => Enabled(s, LoadForReserve(c)) && Enabled(s, ReserveIdle(c))
            case Reserving(_) => Enabled(s, ExchangeForReserve(c, spurious))
            case Holding => Enabled(s, PrepareWait(c)) && Enabled(s, Commit(c)) && Enabled(s, LoadForResume(c))
            case Preparing => Enabled(s, LookAtWord(c)) && Enabled(s, StopWaiting(c))
            case Awaiting => Enabled(s, StopWaiting(c)) && (Enabled(s, WakeUp(c)) <==> s.permit)
            case Resuming(_) => Enabled(s, ExchangeForResume(c, spurious))
            case Done => true
  {}

  lemma ExecOn(steps: seq<Step>, s: State, step: Step)
    requires Exec(steps) == Some(s) && Enabled(s, step)
    ensures Exec(steps + [step]) == Some(Next(s, step))
  {
    assert (steps + [step])[..|steps|] == steps;
  }

  /** What a step of a task decides. */
  lemma TaskStepTells(s: State, step: Step)
    requires Sound(s) && Enabled(s, step) && OfTask(step)
    ensures var now := TaskOf(Next(s, step), step.t);
            match step
            case LoadForBegin(_) => now == if Open(s) then Observing(s.word) else Outside
            case ExchangeForBegin(t, spurious) =>
              if !spurious && s.word == TaskOf(s, t).observed then now.Active?
              else now == if Open(s) then Observing(s.word) else Outside
            case EndRequest(_) => now == if Holders(s) != {} && |ActiveTasks(s)| == 1 then Notifying else Outside
            case NotifyOne(_) => now.Outside? && Next(s, step).permit
    ensures forall other :: other != step.t ==> TaskOf(Next(s, step), other) == TaskOf(s, other)
    ensures Next(s, step).reservers == s.reservers && (!step.NotifyOne? ==> Next(s, step).permit == s.permit)
  {
    hide Sound, ActiveTasks, Holders;
    WordTells(s);
  }

  /** What a step of a reserver decides. */
  lemma ReserverStepTells(s: State, step: Step)
    requires Sound(s) && Enabled(s, step) && !OfTask(step)
    ensures var now := ReserverOf(Next(s, step), step.c);
            match step
            case LoadForReserve(_) => now == if Holders(s) == {} then Reserving(s.word) else Away
            case ExchangeForReserve(c, spurious) =>
              if !spurious && s.word == ReserverOf(s, c).observed then now.Holding?
              else now == if Holders(s) == {} then Reserving(s.word) else Away
            case ReserveIdle(_) => now == if Holders(s) == {} && ActiveTasks(s) == {} then Holding else Away
            case PrepareWait(_) => now.Preparing?
            case LookAtWord(_) => now == if ActiveTasks(s) == {} then Holding else Awaiting
            case WakeUp(_) => now.Preparing? && !Next(s, step).permit
            case StopWaiting(_) => now.Holding?
            case Commit(_) => now == if ActiveTasks(s) == {} then Done else Resuming(s.word)
            case LoadForResume(_) => now == Resuming(s.word)
            case ExchangeForResume(c, spurious) =>
              now == if !spurious && s.word == ReserverOf(s, c).observed then Away else Resuming(s.word)
    ensures forall other :: other != step.c ==> ReserverOf(Next(s, step), other) == ReserverOf(s, other)
    ensures Next(s, step).tasks == s.tasks && (!step.WakeUp? ==> Next(s, step).permit == s.permit)
  {
    hide Sound, ActiveTasks, Holders;
    WordTells(s);
    if Holds(ReserverOf(s, step.c)) {
      HolderCounts(s, step.c);
    }
  }

  // ---- undisturbed calls

  /**
    A request that nobody interferes with is let in exactly when the runtime is open; otherwise it is
    turned away at once.
  */
  lemma BeginsIffOpen(steps: seq<Step>, t: Id)
    requires Exec(steps).Some? && TaskOf(Exec(steps).value, t).Outside?
    ensures var s, tried := Exec(steps).value, steps + [LoadForBegin(t)];
            && Exec(tried).Some?
            && if Open(s) then
                 var done := tried + [ExchangeForBegin(t, false)];
                 && Exec(done).Some? && ActiveTasks(Exec(done).value) == ActiveTasks(s) + {t}
                 && Exec(done).value.word == Disturbed(s.word, RequestBegins)
               else
                 && TaskOf(Exec(tried).value, t).Outside? && Exec(tried).value.word == s.word == Disturbed(s.word, RequestBegins)
  {
    hide Exec, Sound, ActiveTasks, Holders;
    var s := Exec(steps).value;
    EveryRunIsSound(steps);
    WordTells(s);
    var first := LoadForBegin(t);
    WhoCan(s, t, 0, false);
    ExecOn(steps, s, first);
    TaskStepTells(s, first);
    var observed := Next(s, first);
    if Open(s) {
      var second := ExchangeForBegin(t, false);
      WhoCan(observed, t, 0, false);
      ExecOn(steps + [first], observed, second);
      ActiveAfter(s, t, Observing(s.word));
      ActiveAfter(observed, t, Active);
      SameSets(Next(observed, second), SetTask(observed, t, Active));
    }
  }

  /** A request that ends is no longer under way. */
  lemma EndsAtOnce(steps: seq<Step>, t: Id)
    requires Exec(steps).Some? && TaskOf(Exec(steps).value, t).Active?
    ensures var s, done := Exec(steps).value, steps + [EndRequest(t)];
            && Exec(done).Some? && ActiveTasks(Exec(done).value) == ActiveTasks(s) - {t}
            && Exec(done).value.word == Disturbed(s.word, RequestEnds)
  {
    hide Exec, Sound, ActiveTasks, Holders;
    var s := Exec(steps).value;
    EveryRunIsSound(steps);
    WhoCan(s, t, 0, false);
    ExecOn(steps, s, EndRequest(t));
    TaskStepSets(s, EndRequest(t));
    assert s.word >= 2 by {
      ActiveCounts(s, t);
      PairCounts(s);
    }
  }

  lemma PairCounts(s: State)
    requires Sound(s)
    ensures s.word >= 2 * |ActiveTasks(s)|
  {}

  /**
    A reserver that nobody interferes with gets the reservation exactly when nobody else has it, whatever
    requests are under way.
  */
  lemma ReservesIffFree(steps: seq<Step>, c: Id)
    requires Exec(steps).Some? && ReserverOf(Exec(steps).value, c).Away?
    ensures var s, tried := Exec(steps).value, steps + [LoadForReserve(c)];
            && Exec(tried).Some?
            && if Holders(s) == {} then
                 var done := tried + [ExchangeForReserve(c, false)];
                 && Exec(done).Some? && Holders(Exec(done).value) == {c} && ActiveTasks(Exec(done).value) == ActiveTasks(s)
                 && Exec(done).value.word == Disturbed(s.word, Reserves)
               else
                 && ReserverOf(Exec(tried).value, c).Away? && Exec(tried).value.word == s.word == Disturbed(s.word, Reserves)
  {
    hide Exec, Sound, ActiveTasks, Holders;
    var s := Exec(steps).value;
    EveryRunIsSound(steps);
    WordTells(s);
    WordFits(s);
    var first := LoadForReserve(c);
    WhoCan(s, 0, c, false);
    ExecOn(steps, s, first);
    ReserverStepTells(s, first);
    var observed := Next(s, first);
    if Holders(s) == {} {
      var second := ExchangeForReserve(c, false);
      WhoCan(observed, 0, c, false);
      ExecOn(steps + [first], observed, second);
      HoldersAfter(s, c, Reserving(s.word));
      HoldersAfter(observed, c, Holding);
      SameSets(Next(observed, second), SetReserver(observed, c, Holding));
    }
  }

  lemma WordFits(s: State)
    requires Sound(s)
    ensures s.word <= 0xFFFF_FFFF_FFFF_FFFF
  {}

  /** Giving the reservation back undisturbed leaves every request under way and nobody holding it. */
  lemma ResumesAtOnce(steps: seq<Step>, c: Id)
    requires Exec(steps).Some? && ReserverOf(Exec(steps).value, c).Holding?
    ensures var s, done := Exec(steps).value, steps + [LoadForResume(c)] + [ExchangeForResume(c, false)];
            && Exec(done).Some? && Holders(Exec(done).value) == {} && ActiveTasks(Exec(done).value) == ActiveTasks(s)
            && Exec(done).value.word == Disturbed(s.word, Resumes)
  {
    hide Exec, Sound, ActiveTasks, Holders;
    var s := Exec(steps).value;
    EveryRunIsSound(steps);
    var first, second := LoadForResume(c), ExchangeForResume(c, false);
    WhoCan(s, 0, c, false);
    ExecOn(steps, s, first);
    var observed := Next(s, first);
    WhoCan(observed, 0, c, false);
    ExecOn(steps + [first], observed, second);
    EveryRunIsSound(steps + [first] + [second]);
    ReserverStepSets(s, first);
    ReserverStepSets(observed, second);
    OneHolder(s);
    assert |Holders(Next(observed, second))| == 0;
  }

  lemma OneHolder(s: State)
    requires Sound(s)
    ensures |Holders(s)| <= 1
  {}

  // ---- draining

  /**
    When the last request is gone a waiter gets through, in at most three steps of its own and of the
    request that wakes it.
  */
  lemma DrainedGetsThrough(steps: seq<Step>, c: Id) returns (more: seq<Step>)
    requires Exec(steps).Some? && ReserverOf(Exec(steps).value, c).Awaiting? && ActiveTasks(Exec(steps).value) == {}
    ensures |more| <= 3 && Exec(steps + more).Some? && ReserverOf(Exec(steps + more).value, c).Holding?
    ensures ActiveTasks(Exec(steps + more).value) == {}
  {
    hide Exec, Sound, ActiveTasks, Holders;
    var s := Exec(steps).value;
    EveryRunIsSound(steps);
    WordTells(s);
    HolderCounts(s, c);
    var ready, at := steps, s;
    if !s.permit {
      var t := WakerOf(s, c);
      WhoCan(s, t, c, false);
      ExecOn(steps, s, NotifyOne(t));
      TaskStepSets(s, NotifyOne(t));
      TaskStepTells(s, NotifyOne(t));
      ready, at := steps + [NotifyOne(t)], Next(s, NotifyOne(t));
    }
    WhoCan(at, 0, c, false);
    ExecOn(ready, at, WakeUp(c));
    ReserverStepSets(at, WakeUp(c));
    var woken := Next(at, WakeUp(c));
    WhoCan(woken, 0, c, false);
    ExecOn(ready + [WakeUp(c)], woken, LookAtWord(c));
    ReserverStepSets(woken, LookAtWord(c));
    EveryRunIsSound(ready + [WakeUp(c)]);
    ReserverStepTells(woken, LookAtWord(c));
    more := if s.permit then [WakeUp(c), LookAtWord(c)] else ready[|steps|..] + [WakeUp(c), LookAtWord(c)];
    assert steps + more == ready + [WakeUp(c)] + [LookAtWord(c)];
  }

  lemma WakerOf(s: State, c: Id) returns (t: Id)
    requires Sound(s) && s.word == 1 && !s.permit && ReserverOf(s, c).Awaiting?
    ensures TaskOf(s, t).Notifying?
  {
    t :| TaskOf(s, t).Notifying?;
  }

  /** A wake-up is left over: given since the last one was taken. */
  ghost predicate WakeUpLeft(steps: seq<Step>)
  {
    steps != []
    && var last := steps[|steps| - 1];
    last.NotifyOne? || (!last.WakeUp? && WakeUpLeft(steps[..|steps| - 1]))
  }

  /** Wake-ups are never made up and never taken twice, and several at once count as one. */
  lemma {:induction false} PermitTells(steps: seq<Step>)
    requires Exec(steps).Some?
    ensures Exec(steps).value.permit <==> WakeUpLeft(steps)
    decreases |steps|
  {
    hide ObservedForBegin;
    if steps != [] {
      PermitTells(steps[..|steps| - 1]);
    }
  }
}
