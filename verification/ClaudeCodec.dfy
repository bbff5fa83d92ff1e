/**
  The Claude configuration codec over the managed file: apply a desired state, restore the state
  before it, and reconcile an intent after a crash. Whatever step the process dies in, the file
  shows either the state before or the complete desired state, and reconciliation finds its way back.
*/
module ClaudeCodec {
  import opened Bytes
  import opened Directories
  import opened ManagedFiles
  import opened Intents
  import opened Recoveries
  import opened Json
  import opened JsonPrinter
  import opened ClaudeDocument
  import opened ClaudeEnvEditProofs
  import opened ClaudeEnvEdit
  import opened ClaudeText
  import JsonReading

  /** The unrelated part stands for its fingerprint. */
  datatype Snapshot = Snapshot(ownership: Ownership, identity: FileIdentity, owned: Owned, unrelated: Root)

  datatype Desired = Desired(ownership: Ownership, owned: Owned)

  /** The document a version of the file holds; a missing file is the empty document. */
  function DocumentOf(version: Version): (r: Result<Root>)
    ensures r.Ok? ==> Accepted(r.value)
  {
    match version
    case None => Ok(map[])
    case Some((_, inode)) =>
      match ParseDocument(inode.bytes)
      case None => Err(InvalidConfiguration)
      case Some(value) =>
        if !value.Object? then Err(InvalidConfiguration)
        else if !Accepted(value.fields) then Err(ConfigurationCollision)
        else Ok(value.fields)
  }

  /** Which files are read, and how the others are refused: by the grammar, the root object, and `env`. */
  lemma DocumentTells(version: Version, root: Root)
    ensures DocumentOf(version) == Ok(root)
            <==> if version.None? then root == map[]
                 else JsonReading.Spells(version.value.1.bytes, Object(root)) && (Ascii("env") in root ==> root[Ascii("env")].Object?)
    ensures DocumentOf(version) == Err(ConfigurationCollision)
            <==> version.Some? && exists r: Root ::
                   JsonReading.Spells(version.value.1.bytes, Object(r)) && Ascii("env") in r && !r[Ascii("env")].Object?
    ensures DocumentOf(version) == Err(InvalidConfiguration)
            <==> version.Some? && forall r: Root :: !JsonReading.Spells(version.value.1.bytes, Object(r))
  {
    hide ParseDocument, JsonReading.Spells, Ascii;
    EnvIsEnv();
    if version.Some? {
      var b := version.value.1.bytes;
      forall r: Root ensures ParseDocument(b) == Some(Object(r)) <==> JsonReading.Spells(b, Object(r)) {
        JsonReading.ReadIffSpelt(b, Object(r));
      }
      if ParseDocument(b).Some? && ParseDocument(b).value.Object? {
        assert JsonReading.Spells(b, Object(ParseDocument(b).value.fields));
      }
    }
  }

  function SnapshotOf(version: Version, ownership: Ownership): Snapshot
    requires DocumentOf(version).Ok?
  {
    var root := DocumentOf(version).value;
    Snapshot(ownership, IdentityOf(version), Capture(root, ownership), Unrelated(root, ownership))
  }

  /** The version's document has this owned state and this unrelated part. */
  ghost predicate Shows(version: Version, ownership: Ownership, owned: Owned, unrelated: Root) {
    && DocumentOf(version).Ok?
    && Capture(DocumentOf(version).value, ownership) == owned
    && Unrelated(DocumentOf(version).value, ownership) == unrelated
  }

  /** The version's document has this owned state. */
  ghost predicate HoldsOwned(version: Version, ownership: Ownership, owned: Owned) {
    DocumentOf(version).Ok? && Capture(DocumentOf(version).value, ownership) == owned
  }

  /** The snapshot is that of this version. */
  ghost predicate IsSnapshotOf(before: Snapshot, version: Version) {
    DocumentOf(version).Ok? && SnapshotOf(version, before.ownership) == before
  }

  ghost predicate Regular(version: Version) { version.Some? ==> version.value.1.regular }

  /** An owned state that this ownership can store and read back. */
  ghost predicate Storable(owned: Owned, ownership: Ownership) {
    WellFormedOwned(owned) && (ownership.LegacyThree? ==> owned.apiKey.None?)
  }

  /** The snapshot was read from some file. */
  ghost predicate Genuine(before: Snapshot) {
    exists version: Version :: DocumentOf(version).Ok? && SnapshotOf(version, before.ownership) == before
  }

  /** What `reconcile_one` can roll back: the state before, or the whole desired state with one `env`. */
  ghost predicate Recoverable(version: Version, before: Snapshot, desired: Desired) {
    && Regular(version)
    && (|| Shows(version, before.ownership, before.owned, before.unrelated)
        || (version.Some? && Shows(version, before.ownership, desired.owned, before.unrelated)
            && EnvOnce(BytesOf(version))))
  }

  ghost predicate RecoverableFrom(history: seq<Image>, from: nat, target: string, before: Snapshot, desired: Desired) {
    from <= |history|
    && forall i :: from <= i < |history| ==> history[i].Valid() && Recoverable(history[i].At(target), before, desired)
  }

  // ---- what a write makes of a version

  lemma TextOfVersion(version: Version)
    requires DocumentOf(version).Ok?
    ensures TextOf(BytesOf(version), DocumentOf(version).value)
  {
    hide ParseDocument;
  }

  lemma GenuineParts(before: Snapshot)
    requires Genuine(before)
    ensures Storable(before.owned, before.ownership)
    ensures before.identity.Missing? ==> before.owned == Owned(None, None, None, None) && before.unrelated == map[]
  {
    hide ParseDocument, WellFormed, WellFormedOwned;
    var version: Version :| DocumentOf(version).Ok? && SnapshotOf(version, before.ownership) == before;
    var root := DocumentOf(version).value;
    if version.Some? {
      ParsedWellFormed(version.value.1.bytes, Object(root));
    } else {
      EmptyWellFormed();
      EmptyDocument(before.ownership);
    }
    CapturedWellFormed(root, before.ownership);
  }

  lemma EmptyDocument(ownership: Ownership)
    ensures Capture(map[], ownership) == Owned(None, None, None, None)
    ensures Unrelated(map[], ownership) == map[]
  {
    var none: map<Octets, Value> := map[];
    assert none - OwnedKeys(ownership) == map[];
  }

  /** A version holding the next text shows the applied owned state and the same unrelated part. */
  lemma WrittenShows(previous: Version, next: Version, owned: Owned, ownership: Ownership, mode: nat)
    requires DocumentOf(previous).Ok? && Storable(owned, ownership)
    requires var b, root := BytesOf(previous), DocumentOf(previous).value;
             && !Uncovers(b, root, owned, ownership)
             && Written(next, NextText(b, root, owned, ownership), mode)
    ensures Shows(next, ownership, owned, Unrelated(DocumentOf(previous).value, ownership))
    ensures HasValues(owned, ownership) ==> EnvOnce(BytesOf(next))
  {
    hide ParseDocument, NextText, Uncovers, Applied, Unrelated, Capture, EnvOnce, TextOf, WellFormedOwned;
    var b, root := BytesOf(previous), DocumentOf(previous).value;
    TextOfVersion(previous);
    NextTextMeans(b, root, owned, ownership);
    CaptureAfterApply(root, owned, ownership);
    UnrelatedAfterApply(root, owned, ownership);
    if HasValues(owned, ownership) {
      NextTextEnvOnce(b, root, owned, ownership);
    }
  }

  /** Nothing but white space and braces: what an absent file shows. */
  lemma AbsentShows(ownership: Ownership)
    ensures Shows(None, ownership, Owned(None, None, None, None), map[])
  {
    EmptyDocument(ownership);
  }

  /** Every image of an application shows the state before or the whole desired state. */
  lemma ApplyKeepsRecoverable(job: Job, image: Image, base: Image, before: Snapshot, desired: Desired)
    requires job.Undisturbed(image, base) && !job.removes && desired.ownership == before.ownership
    requires var previous := base.At(job.target);
             && Regular(previous) && DocumentOf(previous).Ok? && SnapshotOf(previous, before.ownership) == before
             && job.bytes == NextText(BytesOf(previous), DocumentOf(previous).value, desired.owned, before.ownership)
    requires Storable(desired.owned, before.ownership) && HasValues(desired.owned, before.ownership)
    ensures Recoverable(image.At(job.target), before, desired)
    ensures job.Intended(image) ==> Shows(image.At(job.target), before.ownership, desired.owned, before.unrelated)
  {
    hide DocumentOf, NextText, Unrelated, Capture, EnvOnce, Uncovers, HasValues, Storable, Job.Safe;
    var previous, now := base.At(job.target), image.At(job.target);
    WithValuesNothingUncovered(BytesOf(previous), DocumentOf(previous).value, desired.owned, before.ownership);
    if Written(now, job.bytes, job.mode) {
      WrittenShows(previous, now, desired.owned, before.ownership, job.mode);
    }
  }

  /** Every image of a restoration shows the desired state still, or the state before already. */
  lemma RestoreKeepsRecoverable(job: Job, image: Image, base: Image, before: Snapshot, desired: Desired)
    requires job.Undisturbed(image, base) && Genuine(before)
    requires var previous := base.At(job.target);
             && Recoverable(previous, before, desired) && EnvOnce(BytesOf(previous))
             && Shows(previous, before.ownership, desired.owned, before.unrelated)
             && job.bytes == NextText(BytesOf(previous), DocumentOf(previous).value, before.owned, before.ownership)
    requires job.removes ==> before.identity.Missing? && before.unrelated == map[]
    ensures Recoverable(image.At(job.target), before, desired)
    ensures job.Intended(image) ==> Shows(image.At(job.target), before.ownership, before.owned, before.unrelated)
  {
    hide DocumentOf, NextText, Unrelated, Capture, Storable, Job.Safe, ReversibleEdit, Genuine;
    var previous, now := base.At(job.target), image.At(job.target);
    GenuineParts(before);
    if Written(now, job.bytes, job.mode) {
      WrittenShows(previous, now, before.owned, before.ownership, job.mode);
    }
    AbsentShows(before.ownership);
  }

  class ClaudeConfigCodec {
    const file: ManagedFile

    constructor (file: ManagedFile)
      ensures this.file == file
    {
      this.file := file;
    }

    ghost function Current(): Version
      requires file.directory.Valid()
      reads file.directory
    {
      file.directory.image.At(file.target)
    }

    /** `read_snapshot_with_bytes`. */
    method ReadSnapshot(ownership: Ownership) returns (r: Result<(Snapshot, Root, Octets)>)
      requires file.directory.Valid()
      ensures r.Ok? ==>
                && DocumentOf(Current()).Ok?
                && r.value == (SnapshotOf(Current(), ownership), DocumentOf(Current()).value, BytesOf(Current()))
      ensures r.Ok? ==> r.value.0.identity == file.directory.image.IdentityAt(file.target)
      ensures file.directory.calls.AllWork(READING) && Regular(Current()) ==>
                (r.Ok? <==> DocumentOf(Current()).Ok?) && (r.Err? ==> r.problem == DocumentOf(Current()).problem)
      ensures file.directory.calls.AllFail? ==> r.Err?
    {
      hide ParseDocument, Unrelated, Capture;
      var contents := file.Read();
      if contents.None? {
        return Err(ConfigurationWriteFailed);
      }
      var Contents(identity, bytes) := contents.value;
      var root: Root := map[];
      if identity.Present? {
        var document := ParseDocument(bytes);
        if document.None? || !document.value.Object? {
          return Err(InvalidConfiguration);
        }
        root := document.value.fields;
        if ENV in root && !root[ENV].Object? {
          return Err(ConfigurationCollision);
        }
      }
      r := Ok((Snapshot(ownership, identity, Capture(root, ownership), Unrelated(root, ownership)), root, bytes));
    }

    /** The replacement that writing `owned` over the given version amounts to. */
    ghost function WriteJob(temporary: string, version: Version, expected: Snapshot, owned: Owned, removeFile: bool): Job
      requires DocumentOf(version).Ok?
    {
      file.JobOf(temporary, expected.identity,
                 NextText(BytesOf(version), DocumentOf(version).value, owned, expected.ownership), removeFile)
    }

    /**
      What a write of `owned` over `expected` promises. `at` is the image in which the rename was
      issued (or the last one, when the write was refused before).
    */
    ghost predicate Wrote(temporary: string, expected: Snapshot, owned: Owned, removeFile: bool, externalWriter: bool,
                          before: Image, earlier: seq<Image>, problem: Option<Problem>, at: nat)
      requires before.Valid()
      reads file.directory
    {
      var previous := before.At(file.target);
      && file.directory.Valid() && file.directory.Extends(earlier) && |earlier| <= at + 1 <= |file.directory.history|
      && (|| (&& DocumentOf(previous).Ok? && SnapshotOf(previous, expected.ownership) == expected
              && var job := WriteJob(temporary, previous, expected, owned, removeFile);
              && (!externalWriter ==> WroteUndisturbed(job, before, earlier, at))
              && job.AllUndisturbed(file.directory.history, at, file.directory.history[at])
              && (problem.None? ==>
                    && file.directory.history[at].IdentityAt(file.target) == expected.identity
                    && job.Intended(file.directory.image)
                    && temporary !in file.directory.image.entries
                    && file.directory.durable == |file.directory.history| - 1)
              && (problem == Some(ConfigurationWriteFailed) ==>
                    file.directory.image.At(file.target) == file.directory.history[at].At(file.target)))
          || (problem.Some? && file.directory.image == before && file.directory.history == earlier))
    }

    /** With nobody else at work, every image from the start on keeps the version the write met. */
    ghost predicate WroteUndisturbed(job: Job, before: Image, earlier: seq<Image>, at: nat)
      requires before.Valid()
      reads file.directory
    {
      && at < |file.directory.history| && 0 < |earlier|
      && file.directory.history[at].Valid()
      && file.directory.history[at].At(file.target) == before.At(file.target)
      && job.AllUndisturbed(file.directory.history, |earlier| - 1, file.directory.history[at])
    }

    /** `write_owned`. */
    method WriteOwned(temporary: string, expected: Snapshot, owned: Owned, removeFile: bool, externalWriter: bool)
      returns (problem: Option<Problem>, ghost at: nat)
      requires file.directory.Valid() && temporary != file.target
      modifies file.directory
      ensures Wrote(temporary, expected, owned, removeFile, externalWriter,
                    old(file.directory.image), old(file.directory.history), problem, at)
      ensures file.directory.calls.Scripted() && file.directory.calls.AllWork(READING) && !externalWriter
              && temporary !in old(file.directory.image).entries && old(Regular(Current())) && old(DocumentOf(Current()).Ok?)
              && old(SnapshotOf(Current(), expected.ownership)) == expected
              ==> problem == ProblemOf(OutcomeOf(file.directory.calls, expected.identity.Present?, removeFile && expected.identity.Present?))
    {
      hide DocumentOf, SnapshotOf, OutcomeOf, NextText, Job.Undisturbed, Job.Intended, Job.Safe;
      at := |file.directory.history| - 1;
      var read := ReadSnapshot(expected.ownership);
      if read.Err? {
        return Some(read.problem), at;
      }
      var (current, root, bytes) := read.value;
      if current != expected {
        return Some(ConfigurationWriteFailed), at;
      }
      if externalWriter {
        file.directory.ExternalWrite(file.target);
      }
      var next := NextText(bytes, root, owned, expected.ownership);
      var outcome;
      outcome, at := file.Replace(temporary, expected.identity, next, removeFile, externalWriter);
      problem := ProblemOf(outcome);
    }

    /** `inspect_with_ownership`. */
    method Inspect(ownership: Ownership) returns (r: Result<Snapshot>)
      requires file.directory.Valid()
      ensures r.Ok? ==> DocumentOf(Current()).Ok? && r.value == SnapshotOf(Current(), ownership)
      ensures file.directory.calls.AllWork(READING) && Regular(Current()) && DocumentOf(Current()).Ok? ==> r.Ok?
      ensures file.directory.calls.AllFail? ==> r.Err?
    {
      hide DocumentOf, SnapshotOf;
      var read := ReadSnapshot(ownership);
      r := if read.Ok? then Ok(read.value.0) else Err(read.problem);
    }

    /** `verify`. */
    method Verify(before: Snapshot, desired: Desired) returns (problem: Option<Problem>)
      requires file.directory.Valid()
      ensures problem.None? ==> Shows(Current(), before.ownership, desired.owned, before.unrelated)
      ensures file.directory.faultless && Regular(Current())
              && Shows(Current(), before.ownership, desired.owned, before.unrelated)
              ==> problem.None?
    {
      hide DocumentOf, Capture, Unrelated;
      var current := Inspect(before.ownership);
      if current.Err? {
        return Some(current.problem);
      }
      if current.value.owned != desired.owned || current.value.unrelated != before.unrelated {
        return Some(ConfigurationWriteFailed);
      }
      problem := None;
    }

    /**
      `atomic_apply`. Success means the file shows the desired state beside the unrelated part of
      `before`. Without an external writer every crash point stays recoverable.
    */
    method AtomicApply(temporary: string, before: Snapshot, desired: Desired, externalWriter: bool)
      returns (problem: Option<Problem>, ghost at: nat)
      requires file.directory.Valid() && temporary != file.target
      modifies file.directory
      ensures file.directory.Valid() && file.directory.Extends(old(file.directory.history))
      ensures problem.None? ==> Shows(Current(), before.ownership, desired.owned, before.unrelated)
      ensures problem.None? ==>
                && at < |file.directory.history| && file.directory.history[at].Valid()
                && file.directory.history[at].IdentityAt(file.target) == before.identity
                && temporary !in file.directory.image.entries && file.directory.durable == |file.directory.history| - 1
      ensures !old(IsSnapshotOf(before, Current())) || before.ownership != desired.ownership ==>
                && problem.Some? && file.directory.image == old(file.directory.image)
                && file.directory.history == old(file.directory.history)
      ensures !externalWriter && old(Recoverable(Current(), before, desired))
              && Storable(desired.owned, before.ownership) && HasValues(desired.owned, before.ownership)
              ==> RecoverableFrom(file.directory.history, |old(file.directory.history)| - 1, file.target, before, desired)
      ensures file.directory.faultless && !externalWriter && temporary !in old(file.directory.image).entries
              && before.ownership == desired.ownership && old(Regular(Current())) && old(DocumentOf(Current()).Ok?)
              && old(SnapshotOf(Current(), before.ownership)) == before
              && Storable(desired.owned, before.ownership) && HasValues(desired.owned, before.ownership)
              ==> problem.None?
    {
      hide DocumentOf, SnapshotOf, Wrote, Recoverable, Storable, HasValues, Shows;
      at := |file.directory.history| - 1;
      if before.ownership != desired.ownership {
        return Some(ConfigurationWriteFailed), at;
      }
      problem, at := WriteOwned(temporary, before, desired.owned, false, externalWriter);
      AppliedImages(temporary, before, desired, externalWriter, old(file.directory.image), old(file.directory.history),
                    problem, at);
      if problem.None? {
        problem := Verify(before, desired);
      }
    }

    /** What `Wrote` means for an application. */
    lemma AppliedImages(temporary: string, before: Snapshot, desired: Desired, externalWriter: bool,
                        start: Image, earlier: seq<Image>, problem: Option<Problem>, at: nat)
      requires start.Valid() && 0 < |earlier| && earlier[|earlier| - 1] == start && desired.ownership == before.ownership
      requires Wrote(temporary, before, desired.owned, false, externalWriter, start, earlier, problem, at)
      ensures file.directory.Valid() && file.directory.Extends(earlier)
      ensures problem.None? ==>
                && at < |file.directory.history| && file.directory.history[at].Valid()
                && file.directory.history[at].IdentityAt(file.target) == before.identity
                && temporary !in file.directory.image.entries && file.directory.durable == |file.directory.history| - 1
      ensures !IsSnapshotOf(before, start.At(file.target)) ==>
                problem.Some? && file.directory.image == start && file.directory.history == earlier
      ensures !externalWriter && Recoverable(start.At(file.target), before, desired)
              && Storable(desired.owned, before.ownership) && HasValues(desired.owned, before.ownership)
              ==> RecoverableFrom(file.directory.history, |earlier| - 1, file.target, before, desired)
      ensures !externalWriter && problem.None? && Regular(start.At(file.target))
              && Storable(desired.owned, before.ownership) && HasValues(desired.owned, before.ownership)
              ==> Regular(Current()) && Shows(Current(), before.ownership, desired.owned, before.unrelated)
    {
      hide DocumentOf, SnapshotOf, NextText, Storable, HasValues, Shows, Job.Undisturbed, Job.Intended, EnvOnce;
      var history, previous := file.directory.history, start.At(file.target);
      if file.directory.history == earlier && problem.Some? {
        assert history[|earlier| - 1] == start;
      } else if !externalWriter && Regular(previous) && Storable(desired.owned, before.ownership)
                && HasValues(desired.owned, before.ownership) {
        var job := WriteJob(temporary, previous, before, desired.owned, false);
        forall i | |earlier| - 1 <= i < |history|
          ensures Recoverable(history[i].At(file.target), before, desired)
          ensures job.Intended(history[i])
                  ==> Shows(history[i].At(file.target), before.ownership, desired.owned, before.unrelated)
        {
          ApplyKeepsRecoverable(job, history[i], history[at], before, desired);
        }
      }
    }

    /** What `Wrote` means for a restoration of a state that shows the desired one. */
    lemma RestoredImages(temporary: string, before: Snapshot, desired: Desired, current: Snapshot, removeFile: bool,
                         start: Image, earlier: seq<Image>, problem: Option<Problem>, at: nat)
      requires start.Valid() && 0 < |earlier| && earlier[|earlier| - 1] == start && current.ownership == before.ownership
      requires Wrote(temporary, current, before.owned, removeFile, false, start, earlier, problem, at)
      requires removeFile ==> before.identity.Missing? && before.unrelated == map[]
      requires Genuine(before) && Recoverable(start.At(file.target), before, desired) && EnvOnce(BytesOf(start.At(file.target)))
      requires Shows(start.At(file.target), before.ownership, desired.owned, before.unrelated)
      ensures RecoverableFrom(file.directory.history, |earlier| - 1, file.target, before, desired)
      ensures problem.None?
              ==> Regular(Current()) && Shows(Current(), before.ownership, before.owned, before.unrelated)
    {
      hide DocumentOf, SnapshotOf, NextText, Shows, Job.Undisturbed, Job.Intended, EnvOnce, Genuine;
      var history, previous := file.directory.history, start.At(file.target);
      if file.directory.history == earlier && problem.Some? {
        assert history[|earlier| - 1] == start;
      } else {
        var job := WriteJob(temporary, previous, current, before.owned, removeFile);
        forall i | |earlier| - 1 <= i < |history|
          ensures Recoverable(history[i].At(file.target), before, desired)
          ensures job.Intended(history[i])
                  ==> Shows(history[i].At(file.target), before.ownership, before.owned, before.unrelated)
        {
          RestoreKeepsRecoverable(job, history[i], history[at], before, desired);
        }
      }
    }

    /**
      `restore`. Success means the state before is back beside the unrelated part the file had when
      the call began. A file that was missing before, and would be left empty, is removed.
    */
    method Restore(temporary: string, before: Snapshot, expected: Desired, externalWriter: bool)
      returns (problem: Option<Problem>, ghost at: nat)
      requires file.directory.Valid() && temporary != file.target
      modifies file.directory
      ensures file.directory.Valid() && file.directory.Extends(old(file.directory.history))
      ensures problem.None? ==>
                && old(DocumentOf(Current()).Ok?)
                && Shows(Current(), before.ownership, before.owned,
                         old(SnapshotOf(Current(), before.ownership)).unrelated)
                && temporary !in file.directory.image.entries && file.directory.durable == |file.directory.history| - 1
      ensures !old(HoldsOwned(Current(), before.ownership, expected.owned)) || before.ownership != expected.ownership ==>
                && problem.Some? && file.directory.image == old(file.directory.image)
                && file.directory.history == old(file.directory.history)
      ensures !externalWriter && old(CanRestore(Current(), before, expected))
              ==> RecoverableFrom(file.directory.history, |old(file.directory.history)| - 1, file.target, before, expected)
      ensures file.directory.faultless && !externalWriter && temporary !in old(file.directory.image).entries
              && before.ownership == expected.ownership && old(CanRestore(Current(), before, expected))
              ==> problem.None?
    {
      hide DocumentOf, Wrote, Capture, Unrelated, Genuine, EnvOnce;
      at := |file.directory.history| - 1;
      ghost var start, earlier := file.directory.image, file.directory.history;
      OnlyStart(before, expected);
      if before.ownership != expected.ownership {
        return Some(RecoveryRequiredProblem), at;
      }
      var inspected := Inspect(before.ownership);
      if inspected.Err? {
        return Some(inspected.problem), at;
      }
      var current := inspected.value;
      if current.owned != expected.owned {
        return Some(RecoveryRequiredProblem), at;
      }
      var removeFile := before.identity.Missing? && current.unrelated == map[];
      problem, at := WriteOwned(temporary, current, before.owned, removeFile, externalWriter);
      WroteExtends(temporary, current, before.owned, removeFile, externalWriter, start, earlier, problem, at);
      if !externalWriter && CanRestore(start.At(file.target), before, expected) {
        RestoredImages(temporary, before, expected, current, removeFile, start, earlier, problem, at);
      }
      if problem.Some? {
        return problem, at;
      }
      var restored := Inspect(before.ownership);
      if restored.Err? {
        return Some(restored.problem), at;
      }
      if restored.value.owned != before.owned || restored.value.unrelated != current.unrelated {
        return Some(RecoveryRequiredProblem), at;
      }
    }

    /** The file shows the desired state in a form a restoration of `before` can deal with. */
    ghost predicate CanRestore(version: Version, before: Snapshot, desired: Desired) {
      && Genuine(before) && Recoverable(version, before, desired)
      && Shows(version, before.ownership, desired.owned, before.unrelated) && EnvOnce(BytesOf(version))
    }

    lemma OnlyStart(before: Snapshot, desired: Desired)
      requires file.directory.Valid()
      ensures Recoverable(Current(), before, desired)
              ==> RecoverableFrom(file.directory.history, |file.directory.history| - 1, file.target, before, desired)
    {
      hide Recoverable;
    }

    lemma WroteExtends(temporary: string, expected: Snapshot, owned: Owned, removeFile: bool, externalWriter: bool,
                       before: Image, earlier: seq<Image>, problem: Option<Problem>, at: nat)
      requires before.Valid() && Wrote(temporary, expected, owned, removeFile, externalWriter, before, earlier, problem, at)
      ensures file.directory.Valid() && file.directory.Extends(earlier)
      ensures problem.None? ==>
                temporary !in file.directory.image.entries && file.directory.durable == |file.directory.history| - 1
    {}

    /** `matches_before`; an unreadable file does not match. */
    method MatchesBefore(before: Snapshot) returns (matches: bool)
      requires file.directory.Valid()
      ensures matches ==> Shows(Current(), before.ownership, before.owned, before.unrelated)
      ensures file.directory.calls.AllWork(READING) && Regular(Current())
              ==> (matches <==> Shows(Current(), before.ownership, before.owned, before.unrelated))
    {
      hide DocumentOf, Capture, Unrelated;
      var current := Inspect(before.ownership);
      matches := current.Ok? && current.value.owned == before.owned && current.value.unrelated == before.unrelated;
    }

    /** `restore_or_confirm_before`. */
    method RestoreOrConfirmBefore(temporary: string, before: Snapshot, expected: Desired, externalWriter: bool)
      returns (problem: Option<Problem>)
      requires file.directory.Valid() && temporary != file.target
      modifies file.directory
      ensures file.directory.Valid() && file.directory.Extends(old(file.directory.history))
      ensures problem.None? ==> Shows(Current(), before.ownership, before.owned, before.unrelated)
      ensures old(Shows(Current(), before.ownership, before.owned, before.unrelated)) && old(Regular(Current()))
              && file.directory.calls.AllWork(READING) ==>
                problem.None? && file.directory.image == old(file.directory.image) && file.directory.history == old(file.directory.history)
      ensures !old(Shows(Current(), before.ownership, before.owned, before.unrelated))
              && !old(HoldsOwned(Current(), before.ownership, expected.owned)) ==>
                problem.Some? && file.directory.image == old(file.directory.image) && file.directory.history == old(file.directory.history)
      ensures file.directory.faultless && !externalWriter && temporary !in old(file.directory.image).entries
              && before.ownership == expected.ownership && Genuine(before) && old(Recoverable(Current(), before, expected))
              ==> problem.None?
    {
      hide DocumentOf, Capture, Unrelated, Genuine, EnvOnce;
      var matches := MatchesBefore(before);
      if matches {
        return None;
      }
      ghost var at;
      problem, at := Restore(temporary, before, expected, externalWriter);
      if problem.Some? {
        return problem;
      }
      OnlyStart(before, expected);
      matches := MatchesBefore(before);
      if !matches {
        return Some(RecoveryRequiredProblem);
      }
    }

    /** What `reconcile_one` does to the file, and the state it will put on record. */
    method SettleFile(temporary: string, before: Snapshot, desired: Desired, pathMatches: bool, externalWriter: bool)
      returns (verdict: RecoveryState)
      requires file.directory.Valid() && temporary != file.target
      modifies file.directory
      ensures file.directory.Valid() && file.directory.Extends(old(file.directory.history))
      ensures verdict != Pending
      ensures verdict.RolledBack? ==> Shows(Current(), before.ownership, before.owned, before.unrelated)
      ensures !pathMatches || file.directory.calls.AllFail?
              ==> verdict.NeedsRecovery? && file.directory.history == old(file.directory.history)
                  && file.directory.image == old(file.directory.image)
      ensures pathMatches && old(Shows(Current(), before.ownership, before.owned, before.unrelated)) && old(Regular(Current()))
              && file.directory.calls.AllWork(READING)
              ==> verdict.RolledBack?
      ensures old(Shows(Current(), before.ownership, before.owned, before.unrelated))
              || !old(Shows(Current(), before.ownership, desired.owned, before.unrelated)) ==>
                file.directory.image == old(file.directory.image) && file.directory.history == old(file.directory.history)
      ensures !externalWriter && Genuine(before) && old(Recoverable(Current(), before, desired))
              ==> RecoverableFrom(file.directory.history, |old(file.directory.history)| - 1, file.target, before, desired)
      ensures file.directory.faultless && pathMatches && !externalWriter && temporary !in old(file.directory.image).entries
              && before.ownership == desired.ownership && Genuine(before) && old(Recoverable(Current(), before, desired))
              ==> verdict.RolledBack?
    {
      hide DocumentOf, Capture, Unrelated, Genuine, EnvOnce;
      OnlyStart(before, desired);
      if !pathMatches {
        return NeedsRecovery;
      }
      var inspected := Inspect(before.ownership);
      if inspected.Err? {
        return NeedsRecovery;
      }
      var current := inspected.value;
      if current.owned == before.owned && current.unrelated == before.unrelated {
        return RolledBack;
      }
      if current.owned == desired.owned && current.unrelated == before.unrelated {
        ghost var at;
        var problem;
        problem, at := Restore(temporary, before, desired, externalWriter);
        if problem.None? {
          var matches := MatchesBefore(before);
          if matches {
            return RolledBack;
          }
        }
      }
      verdict := NeedsRecovery;
    }

    /**
      `reconcile_one`. `RolledBack` is recorded only when the file, whatever it held, now shows the
      state before. The file stays recoverable throughout, so the process may die here too; when
      nothing fails, the intent is rolled back.
    */
    method ReconcileOne(temporary: string, intent: Intent<Snapshot, Desired>, pathMatches: bool, store: Calls, externalWriter: bool)
      returns (ok: bool)
      requires file.directory.Valid() && temporary != file.target
      modifies file.directory, intent
      ensures file.directory.Valid() && file.directory.Extends(old(file.directory.history))
      ensures intent.state == RolledBack && old(intent.state) != RolledBack
              ==> Shows(Current(), intent.before.ownership, intent.before.owned, intent.before.unrelated)
      ensures ok ==> intent.state == RolledBack
      ensures !pathMatches || file.directory.calls.AllFail? ==>
                && !ok && file.directory.image == old(file.directory.image)
                && (store.NoneFails? ==> intent.state == NeedsRecovery)
      ensures pathMatches && store.NoneFails? && file.directory.calls.AllWork(READING) && old(Regular(Current()))
              && old(Shows(Current(), intent.before.ownership, intent.before.owned, intent.before.unrelated))
              ==> ok
      ensures old(Shows(Current(), intent.before.ownership, intent.before.owned, intent.before.unrelated))
              || !old(Shows(Current(), intent.before.ownership, intent.desired.owned, intent.before.unrelated)) ==>
                file.directory.image == old(file.directory.image) && file.directory.history == old(file.directory.history)
      ensures !externalWriter && Genuine(intent.before) && old(Recoverable(Current(), intent.before, intent.desired))
              ==> RecoverableFrom(file.directory.history, |old(file.directory.history)| - 1, file.target,
                                  intent.before, intent.desired)
      ensures file.directory.faultless && store.NoneFails? && pathMatches && !externalWriter
              && temporary !in old(file.directory.image).entries
              && intent.before.ownership == intent.desired.ownership && Genuine(intent.before)
              && old(Recoverable(Current(), intent.before, intent.desired))
              ==> ok
    {
      hide Shows, Genuine, Recoverable;
      var verdict := SettleFile(temporary, intent.before, intent.desired, pathMatches, externalWriter);
      var recorded := intent.Record(verdict, store);
      ok := verdict.RolledBack? && recorded;
    }
  }

  /** A process started afresh on whatever was found in the directory. */
  method Restart(found: Image, target: string, calls: Calls) returns (codec: ClaudeConfigCodec)
    requires found.Valid()
    ensures fresh(codec) && fresh(codec.file) && fresh(codec.file.directory)
    ensures codec.file.target == target && codec.file.directory.calls == calls
    ensures codec.file.directory.Valid() && codec.file.directory.image == found
    ensures codec.file.directory.history == [found]
  {
    var directory := new Directory(found, calls);
    var file := new ManagedFile(directory, target);
    codec := new ClaudeConfigCodec(file);
  }

  ghost function AimsOf(target: string, before: Snapshot, desired: Desired): Aims {
    Aims(target, version => Recoverable(version, before, desired),
         version => Shows(version, before.ownership, before.owned, before.unrelated))
  }

  /**
    One start of the program: `reconcile_pending`, as far as this intent is concerned. A process that
    dies leaves some image of its work, and the store as it was: recording is the last thing it does.
  */
  method StartUp(start: Start, found: Image, target: string, intent: Intent<Snapshot, Desired>) returns (left: Image)
    requires found.Valid() && start.temporary != target
    requires Genuine(intent.before) && intent.before.ownership == intent.desired.ownership
    modifies intent
    ensures left.Valid()
    ensures Started(AimsOf(target, intent.before, intent.desired), start, Stop(found, old(intent.state)), Stop(left, intent.state))
  {
    hide Shows, Genuine, Recoverable;
    var unlisted: bool := *;
    if !intent.state.Pending? || start.store.AllFail? || (start.store.SomeFail? && unlisted) {
      return found;
    }
    var codec := Restart(found, target, start.calls);
    if start.dies {
      var _ := codec.SettleFile(start.temporary, intent.before, intent.desired, true, false);
      left := Crash(codec.file.directory, 0);
    } else {
      var _ := codec.ReconcileOne(start.temporary, intent, true, start.store, false);
      left := codec.file.directory.image;
    }
  }

  /**
    The whole story: an application dies in any of its steps, and then the program is started any
    number of times, each start failing or dying in any of its steps too. The file stays recoverable
    throughout. The first undisturbed start rolls the intent back, for good, if no start before it
    has put on record that recovery is required, as when all of them died; after such a record nothing
    is touched any more.
  */
  method CrashesThenRecovery(codec: ClaudeConfigCodec, intent: Intent<Snapshot, Desired>, temporary: string, starts: seq<Start>)
    returns (stops: seq<Stop>)
    requires codec.file.directory.Valid() && temporary != codec.file.target
    requires forall k :: 0 <= k < |starts| ==> starts[k].temporary != codec.file.target
    requires Regular(codec.Current()) && DocumentOf(codec.Current()).Ok? && intent.state == Pending
    requires SnapshotOf(codec.Current(), intent.before.ownership) == intent.before
    requires intent.before.ownership == intent.desired.ownership
    requires Storable(intent.desired.owned, intent.before.ownership) && HasValues(intent.desired.owned, intent.before.ownership)
    modifies codec.file.directory, intent
    ensures Story(AimsOf(codec.file.target, intent.before, intent.desired), starts, stops)
    ensures stops[|starts|].state == intent.state
    ensures forall i :: 0 <= i <= |starts| ==>
              stops[i].image.Valid() && Recoverable(stops[i].image.At(codec.file.target), intent.before, intent.desired)
    ensures forall i :: 0 <= i < |starts| && starts[i].Undisturbed(stops[i].image)
                        && (stops[i].state.Pending? || forall k :: 0 <= k < i ==> starts[k].dies) ==>
              && intent.state == RolledBack && stops[|starts|].image.Valid()
              && Shows(stops[|starts|].image.At(codec.file.target),
                       intent.before.ownership, intent.before.owned, intent.before.unrelated)
    ensures forall i :: 0 <= i < |starts| && stops[i].state.Pending? && starts[i].ReadsFail() ==>
              stops[|starts|] == Stop(stops[i].image, NeedsRecovery)
  {
    hide DocumentOf, Shows, Recoverable, EnvOnce, Storable, HasValues, Started;
    ghost var aims := AimsOf(codec.file.target, intent.before, intent.desired);
    assert Genuine(intent.before);
    StartRecoverable(codec.Current(), intent.before, intent.desired);
    var from := |codec.file.directory.history| - 1;
    var problem;
    ghost var at;
    problem, at := codec.AtomicApply(temporary, intent.before, intent.desired, false);
    var found := Crash(codec.file.directory, from);
    stops := [Stop(found, Pending)];
    for i := 0 to |starts|
      invariant |stops| == i + 1 && stops[i] == Stop(found, intent.state) && found.Valid() && stops[0].state.Pending?
      invariant aims.Recoverable(stops[0])
      invariant forall k :: 0 <= k < i ==> Started(aims, starts[k], stops[k], stops[k + 1])
    {
      found := StartUp(starts[i], found, codec.file.target, intent);
      stops := stops + [Stop(found, intent.state)];
    }
    StoryEnds(aims, starts, stops);
  }

  lemma StartRecoverable(version: Version, before: Snapshot, desired: Desired)
    requires Regular(version) && DocumentOf(version).Ok? && SnapshotOf(version, before.ownership) == before
    ensures Recoverable(version, before, desired)
  {
    hide DocumentOf, Capture, Unrelated, EnvOnce;
  }

  /**
    Such a story: the application died after its write, the next start cannot read the file and puts
    that on record, and a clean start after it leaves the settings of the dead application in place.
  */
  method OneFailedRead(found: Image, target: string, intent: Intent<Snapshot, Desired>, first: string, second: string)
    returns (left: Image)
    requires found.Valid() && first != target && second != target && second !in found.entries
    requires Genuine(intent.before) && intent.before.ownership == intent.desired.ownership && intent.state == Pending
    requires Recoverable(found.At(target), intent.before, intent.desired)
    requires !Shows(found.At(target), intent.before.ownership, intent.before.owned, intent.before.unrelated)
    modifies intent
    ensures left == found && intent.state == NeedsRecovery
    ensures !Shows(left.At(target), intent.before.ownership, intent.before.owned, intent.before.unrelated)
  {
    hide Shows, Genuine, Recoverable;
    left := StartUp(Start(first, AllFail, NoneFails, false), found, target, intent);
    left := StartUp(Start(second, NoneFails, NoneFails, false), left, target, intent);
  }

  /** There is such an image: settings written over a missing file. */
  lemma DeadApplication(target: string) returns (found: Image, before: Snapshot, desired: Desired)
    ensures found.Valid() && Genuine(before) && before.ownership == desired.ownership
    ensures Recoverable(found.At(target), before, desired)
    ensures !Shows(found.At(target), before.ownership, before.owned, before.unrelated)
  {
    hide ParseDocument, NextText, EnvOnce, Uncovers, WellFormed, Capture, Unrelated;
    var absent: Version := None;
    before := SnapshotOf(absent, FourField);
    EmptyDocument(FourField);
    desired := Desired(FourField, Owned(None, None, Some(Str([])), None));
    assert WellFormedOwned(desired.owned) by { EmptyTextWellFormed(); }
    var inode := Inode(true, 0, NEW_FILE_MODE, NextText([], map[], desired.owned, FourField));
    found := Image(map[target := InodeId(0, 0)], map[InodeId(0, 0) := inode], {});
    WithValuesNothingUncovered([], map[], desired.owned, FourField);
    WrittenShows(absent, found.At(target), desired.owned, FourField, NEW_FILE_MODE);
  }
}
