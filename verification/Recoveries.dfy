/**
  The starts of the program after a crash. At each of them only an intent that is still pending is
  looked at, so the first start that records a state settles the matter for good.
*/
module Recoveries {
  import opened Bytes
  import opened Directories
  import opened Intents

  /** One start: the name of its temporary file, how its calls and those to the store fare, and whether it dies. */
  datatype Start = Start(temporary: string, calls: Calls, store: Calls, dies: bool)
  {
    /** Nothing fails, and the temporary name is free. */
    predicate Undisturbed(found: Image) {
      calls.NoneFails? && store.NoneFails? && !dies && temporary !in found.entries
    }

    /** The file cannot be read, and this is put on record. */
    predicate ReadsFail() { calls.AllFail? && store.NoneFails? && !dies }
  }

  /** What a start leaves behind on disk and in the store. */
  datatype Stop = Stop(image: Image, state: RecoveryState)

  /** The file in question, from which of its versions recovery can roll back, and which ones show the state before. */
  datatype Aims = Aims(target: string, recoverable: Version -> bool, before: Version -> bool)
  {
    ghost predicate Recoverable(stop: Stop) { stop.image.Valid() && recoverable(stop.image.At(target)) }

    ghost predicate Before(stop: Stop) { stop.image.Valid() && before(stop.image.At(target)) }
  }

  /** What one start makes of what it finds. */
  ghost predicate Started(aims: Aims, start: Start, found: Stop, left: Stop) {
    && found.image.Valid() && left.image.Valid()
    && (!found.state.Pending? ==> left == found)
    && (start.dies ==> left.state == found.state)
    && (aims.Recoverable(found) ==> aims.Recoverable(left))
    && (found.state.Pending? && left.state.RolledBack? ==> aims.Before(left))
    && (found.state.Pending? && aims.Recoverable(found) && start.Undisturbed(found.image) ==> left.state.RolledBack?)
    && (found.state.Pending? && start.ReadsFail() ==> left == Stop(found.image, NeedsRecovery))
  }

  /** `stops` are the beginning and what each of the starts left. */
  ghost predicate Story(aims: Aims, starts: seq<Start>, stops: seq<Stop>) {
    && |stops| == |starts| + 1
    && forall i :: 0 <= i < |starts| ==> Started(aims, starts[i], stops[i], stops[i + 1])
  }

  /** The file stays recoverable through every start. */
  lemma {:induction false} StaysRecoverable(aims: Aims, starts: seq<Start>, stops: seq<Stop>, n: nat)
    requires Story(aims, starts, stops) && aims.Recoverable(stops[0]) && n <= |starts|
    ensures aims.Recoverable(stops[n])
  {
    if n > 0 {
      StaysRecoverable(aims, starts, stops, n - 1);
      assert Started(aims, starts[n - 1], stops[n - 1], stops[n]);
    }
  }

  /** Once a state is on record, no later start changes the file or the record. */
  lemma {:induction false} SettledForGood(aims: Aims, starts: seq<Start>, stops: seq<Stop>, i: nat, n: nat)
    requires Story(aims, starts, stops) && i <= n <= |starts| && !stops[i].state.Pending?
    ensures stops[n] == stops[i]
  {
    if i < n {
      SettledForGood(aims, starts, stops, i, n - 1);
      assert Started(aims, starts[n - 1], stops[n - 1], stops[n]);
    }
  }

  lemma {:induction false} PendingWhileDying(aims: Aims, starts: seq<Start>, stops: seq<Stop>, i: nat)
    requires Story(aims, starts, stops) && i <= |starts| && stops[0].state.Pending?
    requires forall k :: 0 <= k < i ==> starts[k].dies
    ensures stops[i].state.Pending?
  {
    if i > 0 {
      PendingWhileDying(aims, starts, stops, i - 1);
      assert Started(aims, starts[i - 1], stops[i - 1], stops[i]);
    }
  }

  /**
    When every start so far died or failed to record anything, the first undisturbed one rolls back,
    and the state before stays, whatever the starts behind it meet.
  */
  lemma FirstUndisturbedRollsBack(aims: Aims, starts: seq<Start>, stops: seq<Stop>, i: nat)
    requires Story(aims, starts, stops) && aims.Recoverable(stops[0]) && i < |starts|
    requires stops[i].state.Pending? && starts[i].Undisturbed(stops[i].image)
    ensures stops[|starts|].state.RolledBack? && aims.Before(stops[|starts|])
  {
    StaysRecoverable(aims, starts, stops, i);
    assert Started(aims, starts[i], stops[i], stops[i + 1]);
    SettledForGood(aims, starts, stops, i + 1, |starts|);
  }

  /**
    But one start that cannot read the file and puts that on record is the last to touch it: from
    then on even undisturbed starts leave it as it was found.
  */
  lemma FailedReadIsFinal(aims: Aims, starts: seq<Start>, stops: seq<Stop>, i: nat)
    requires Story(aims, starts, stops) && i < |starts| && stops[i].state.Pending? && starts[i].ReadsFail()
    ensures stops[|starts|] == Stop(stops[i].image, NeedsRecovery)
  {
    assert Started(aims, starts[i], stops[i], stops[i + 1]);
    SettledForGood(aims, starts, stops, i + 1, |starts|);
  }

  /** A roll-back is on record only over a file that shows the state before. */
  lemma RolledBackShowsBefore(aims: Aims, starts: seq<Start>, stops: seq<Stop>, n: nat)
    requires Story(aims, starts, stops) && n <= |starts| && stops[0].state.Pending? && stops[n].state.RolledBack?
    ensures aims.Before(stops[n])
    decreases n
  {
    if stops[n - 1].state.Pending? {
      assert Started(aims, starts[n - 1], stops[n - 1], stops[n]);
    } else {
      SettledForGood(aims, starts, stops, n - 1, n);
      RolledBackShowsBefore(aims, starts, stops, n - 1);
    }
  }

  /**
    The story told from its end, for every start at once: recoverable throughout, a roll-back on record
    only over a file that shows the state before, and settled for good by the first undisturbed start
    or the first recorded failure. An undisturbed start finds the intent pending when all before it died.
  */
  lemma StoryEnds(aims: Aims, starts: seq<Start>, stops: seq<Stop>)
    requires Story(aims, starts, stops) && aims.Recoverable(stops[0]) && stops[0].state.Pending?
    ensures forall i :: 0 <= i <= |starts| && stops[i].state.RolledBack? ==> aims.Before(stops[i])
    ensures forall i :: 0 <= i <= |starts| && (forall k :: 0 <= k < i ==> starts[k].dies) ==> stops[i].state.Pending?
    ensures forall i :: 0 <= i <= |starts| ==> aims.Recoverable(stops[i])
    ensures forall i :: 0 <= i < |starts| && stops[i].state.Pending? && starts[i].Undisturbed(stops[i].image) ==>
              stops[|starts|].state.RolledBack? && aims.Before(stops[|starts|])
    ensures forall i :: 0 <= i < |starts| && stops[i].state.Pending? && starts[i].ReadsFail() ==>
              stops[|starts|] == Stop(stops[i].image, NeedsRecovery)
  {
    forall i | 0 <= i <= |starts| ensures aims.Recoverable(stops[i]) {
      StaysRecoverable(aims, starts, stops, i);
    }
    forall i | 0 <= i <= |starts| && stops[i].state.RolledBack? ensures aims.Before(stops[i]) {
      RolledBackShowsBefore(aims, starts, stops, i);
    }
    forall i | 0 <= i <= |starts| && (forall k :: 0 <= k < i ==> starts[k].dies) ensures stops[i].state.Pending? {
      PendingWhileDying(aims, starts, stops, i);
    }
    forall i | 0 <= i < |starts| && stops[i].state.Pending? && starts[i].Undisturbed(stops[i].image)
      ensures stops[|starts|].state.RolledBack? && aims.Before(stops[|starts|])
    {
      FirstUndisturbedRollsBack(aims, starts, stops, i);
    }
    forall i | 0 <= i < |starts| && stops[i].state.Pending? && starts[i].ReadsFail()
      ensures stops[|starts|] == Stop(stops[i].image, NeedsRecovery)
    {
      FailedReadIsFinal(aims, starts, stops, i);
    }
  }

  /** The image some crash leaves behind: any image since `from`. */
  method Crash(directory: Directory, from: nat) returns (found: Image)
    requires directory.Valid() && from < |directory.history|
    ensures exists k :: from <= k < |directory.history| && found == directory.history[k]
  {
    var k: nat := *;
    if !(from <= k < |directory.history|) {
      k := from;
    }
    found := directory.history[k];
  }
}
