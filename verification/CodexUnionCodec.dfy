/** The restore union on the file: writing it, checking it, and taking it back. */
module CodexUnionCodec {
  import opened Bytes
  import opened Directories
  import opened ManagedFiles
  import opened Intents
  import opened CodexDocument
  import opened CodexApply
  import opened CodexToml
  import opened CodexTrees
  import opened CodexLaws
  import opened CodexOverride
  import opened CodexReturn
  import opened CodexRestoreUnion
  import opened CodexUnionReturn
  import opened CodexCodec

  datatype FileState = FileState(present: bool, mode: Option<nat>)

  /** `planned_installed_file_state`. */
  function Planned(document: Fields, historical: FileIdentity): FileState {
    if historical.Missing? && document == map[] then FileState(false, None) else FileState(true, Some(ModeOf(historical)))
  }

  /** `installed_file_state_matches`. */
  predicate StateMatches(version: Version, expected: FileState) {
    var now := IdentityOf(version);
    now.Exists() == expected.present && (expected.present ==> now.Present? && Some(now.mode) == expected.mode)
  }

  /** `restore_union_matches`, for the version in the file. */
  ghost predicate UnionShown(toml: Toml, version: Version, before: Snapshot, desired: Owned, restore: ProviderRestore,
                             installed: Option<FileState>) {
    && DocumentOf(toml, version).Some?
    && UnionMatches(DocumentOf(toml, version).value, before.unrelated, desired, restore)
    && (installed.Some? ==> StateMatches(version, installed.value))
  }

  /** The snapshot is that of the file, and the union from it is one the checks can accept. */
  ghost predicate UnionPlanned(toml: Toml, version: Version, before: Snapshot, desired: Owned, restore: ProviderRestore,
                               historical: FileIdentity, installed: FileState) {
    && Regular(version) && toml.Lawful() && DocumentOf(toml, version).Some?
    && toml.OnLines(DocumentOf(toml, version).value, before.owned.key)
    && var root := DocumentOf(toml, version).value;
    && SnapshotOf(IdentityOf(version), root, before.owned.key) == Some(before)
    && restore.key == before.owned.key != desired.key && desired.key != ""
    && desired.Faithful() && FaithfulRestore(restore) && Obtainable(restore)
    && toml.PrintableOwned(desired) && toml.PrintableRestore(restore)
    && Union(root, before.owned.key, desired, restore).Some?
    && installed == Planned(Union(root, before.owned.key, desired, restore).value, historical)
    && (historical.Present? ==> historical.mode < 512)
  }

  /** Every image of the write shows the old version, or what the checks accept (once complete, with its file state). */
  lemma UnionImage(toml: Toml, job: Job, image: Image, base: Image, before: Snapshot, desired: Owned, restore: ProviderRestore,
                   historical: FileIdentity, installed: FileState)
    requires job.Undisturbed(image, base)
    requires UnionPlanned(toml, base.At(job.target), before, desired, restore, historical, installed)
    requires var next := Union(DocumentOf(toml, base.At(job.target)).value, before.owned.key, desired, restore).value;
             job.bytes == toml.format(next) && job.mode == ModeOf(historical) && (job.removes ==> !installed.present)
    ensures image.At(job.target) == base.At(job.target) || UnionShown(toml, image.At(job.target), before, desired, restore, None)
    ensures job.Intended(image) && job.removes == !installed.present ==>
              && Regular(image.At(job.target)) && UnionShown(toml, image.At(job.target), before, desired, restore, Some(installed))
              && DocumentOf(toml, image.At(job.target))
                 == Union(DocumentOf(toml, base.At(job.target)).value, before.owned.key, desired, restore)
  {
    hide Union, UnionMatches, SnapshotOf, Obtainable, FaithfulRestore, Job.Safe;
    hide Toml.Printable, Toml.PrintableOwned, Toml.PrintableRestore;
    var root := DocumentOf(toml, base.At(job.target)).value;
    var next := Union(root, before.owned.key, desired, restore).value;
    UnionPrintable(toml, root, before.owned.key, desired, restore, next);
    SnapshotParts(IdentityOf(base.At(job.target)), root, before);
    UnionSatisfiesChecks(root, before.owned, desired, restore, next);
    if Written(image.At(job.target), job.bytes, job.mode) {
      assert DocumentOf(toml, image.At(job.target)) == Some(next);
    }
  }

  lemma UnionPrintable(toml: Toml, root: Fields, key: string, desired: Owned, restore: ProviderRestore, next: Fields)
    requires toml.Printable(root) && toml.PrintableOwned(desired) && toml.PrintableRestore(restore)
    requires Union(root, key, desired, restore) == Some(next)
    ensures toml.Printable(next)
  {
    hide Applied, Restored, Toml.Printable, Toml.PrintableOwned, Toml.PrintableRestore;
    toml.AppliedPrintable(root, key, desired, false);
    toml.RestoredPrintable(Applied(root, key, desired, false).value, restore);
  }

  lemma SnapshotParts(identity: FileIdentity, root: Fields, snapshot: Snapshot)
    requires SnapshotOf(identity, root, snapshot.owned.key) == Some(snapshot)
    ensures Capture(root, snapshot.owned.key) == Some(snapshot.owned)
    ensures Unrelated(root, snapshot.owned.key) == snapshot.unrelated
  {}

  /** One version holds the union from the document of the other. */
  ghost predicate HoldsUnion(toml: Toml, previous: Version, version: Version, before: Snapshot, desired: Owned, restore: ProviderRestore) {
    && Regular(version) && DocumentOf(toml, previous).Some?
    && DocumentOf(toml, version) == Union(DocumentOf(toml, previous).value, before.owned.key, desired, restore)
  }

  /** The snapshot is of another file, or the edits do not go through. */
  ghost predicate UnionRefused(toml: Toml, version: Version, before: Snapshot, desired: Owned, restore: ProviderRestore) {
    || !IsSnapshotOf(toml, before, version)
    || Union(DocumentOf(toml, version).value, before.owned.key, desired, restore).None?
  }

  /** `apply_restore_union_document`: both edits, in place. */
  method EditUnion(root: Fields, beforeKey: string, desired: Owned, restore: ProviderRestore) returns (r: Option<Fields>)
    ensures r == Union(root, beforeKey, desired, restore)
  {
    hide Applied, Restored;
    var document := new Document(root);
    var ok := document.ApplyOwned(beforeKey, desired, false);
    if ok {
      ok := document.ApplyProviderRestore(restore);
    }
    r := if ok then Some(document.root) else None;
  }

  /** Write a document over the file that was read, and say how that ended. */
  method Install(file: ManagedFile, temporary: string, expected: FileIdentity, bytes: Octets, removeFile: bool, mode: nat,
                 externalWriter: bool)
    returns (problem: Option<Problem>, ghost outcome: Outcome, ghost at: nat)
    requires file.directory.Valid() && temporary != file.target
    modifies file.directory
    ensures file.directory.Valid() && file.directory.Extends(old(file.directory.history))
    ensures problem == ProblemOf(outcome)
    ensures !externalWriter ==>
              file.Replaced(Job(file.target, temporary, expected, removeFile && expected.Present?, bytes, mode),
                            old(file.directory.image), old(file.directory.history), outcome, at, false)
    ensures outcome.Done? ==>
              temporary !in file.directory.image.entries && file.directory.durable == |file.directory.history| - 1
    ensures file.directory.faultless && !externalWriter && temporary !in old(file.directory.image).entries
            && old(Regular(file.directory.image.At(file.target))) && old(file.directory.image.IdentityAt(file.target)) == expected
            ==> outcome.Done?
  {
    hide Job.Undisturbed, Job.Intended, ManagedFile.EditedInPlace;
    if externalWriter {
      file.directory.ExternalWrite(file.target);
    }
    var ended;
    ended, at := file.ReplaceWithMode(temporary, expected, bytes, removeFile, mode, externalWriter);
    outcome := ended;
    problem := ProblemOf(ended);
  }

  /**
    `atomic_restore_union`. A planned union succeeds, when nothing fails, except for an empty one over
    a missing file: the write leaves an empty file there, and the check of the file state refuses it.
  */
  method AtomicRestoreUnion(codec: CodexConfigCodec, temporary: string, before: Snapshot, desired: Owned,
                            restore: ProviderRestore, historical: FileIdentity, installed: FileState, externalWriter: bool)
    returns (problem: Option<Problem>, ghost at: nat)
    requires codec.file.directory.Valid() && temporary != codec.file.target
    modifies codec.file.directory
    ensures codec.file.directory.Valid() && codec.file.directory.Extends(old(codec.file.directory.history))
    ensures problem.None? ==> UnionShown(codec.toml, codec.Current(), before, desired, restore, Some(installed))
    ensures problem.None? ==>
              && temporary !in codec.file.directory.image.entries
              && codec.file.directory.durable == |codec.file.directory.history| - 1
    ensures UnionRefused(codec.toml, old(codec.Current()), before, desired, restore) ==>
              && problem.Some? && codec.file.directory.image == old(codec.file.directory.image)
              && codec.file.directory.history == old(codec.file.directory.history)
    ensures !externalWriter && old(UnionPlanned(codec.toml, codec.Current(), before, desired, restore, historical, installed))
            ==> UnionImages(codec, old(codec.Current()), |old(codec.file.directory.history)|, before, desired, restore)
    ensures codec.file.directory.faultless && !externalWriter && temporary !in old(codec.file.directory.image).entries
            && old(UnionPlanned(codec.toml, codec.Current(), before, desired, restore, historical, installed))
            ==> (problem.None? <==> before.identity.Present? || installed.present)
    ensures problem.None? && !externalWriter
            && old(UnionPlanned(codec.toml, codec.Current(), before, desired, restore, historical, installed))
            ==> HoldsUnion(codec.toml, old(codec.Current()), codec.Current(), before, desired, restore)
  {
    hide Union, UnionShown, SnapshotOf, UnionPlanned, UnionImages, Job.Undisturbed, Job.Intended;
    var directory, file := codec.file.directory, codec.file;
    at := |directory.history| - 1;
    ghost var start, earlier := directory.image, directory.history;
    ghost var previous := codec.Current();
    NoImagesYet(codec, previous, before, desired, restore);
    if UnionPlanned(codec.toml, previous, before, desired, restore, historical, installed) {
      PlannedIsReadable(codec, previous, before, desired, restore, historical, installed);
    }
    var read := codec.ReadSnapshotForKey(before.owned.key);
    if read.Err? {
      return Some(read.problem), at;
    }
    var (current, root) := read.value;
    if current != before {
      return Some(ConfigurationWriteFailed), at;
    }
    var next := EditUnion(root, before.owned.key, desired, restore);
    if next.None? {
      return Some(ConfigurationWriteFailed), at;
    }
    ghost var outcome;
    problem, outcome, at := Install(codec.file, temporary, before.identity, codec.toml.format(next.value), !installed.present,
                                    ModeOf(historical), externalWriter);
    if !externalWriter && UnionPlanned(codec.toml, previous, before, desired, restore, historical, installed) {
      UnionWritten(codec, temporary, before, desired, restore, historical, installed, start, earlier, outcome, at);
    }
    if problem.Some? {
      return problem, at;
    }
    problem := VerifyRestoreUnion(codec, before, desired, restore, Some(installed));
    ShownState(codec.toml, codec.Current(), before, desired, restore, installed);
  }

  lemma ShownState(toml: Toml, version: Version, before: Snapshot, desired: Owned, restore: ProviderRestore, installed: FileState)
    ensures UnionShown(toml, version, before, desired, restore, Some(installed)) ==> (version.Some? <==> installed.present)
  {
    hide UnionMatches;
  }

  /** What the crash points of the write show. */
  ghost predicate UnionImages(codec: CodexConfigCodec, previous: Version, from: nat, before: Snapshot, desired: Owned,
                              restore: ProviderRestore)
    reads codec.file.directory
  {
    forall i :: from <= i < |codec.file.directory.history| ==>
                  && codec.file.directory.history[i].Valid()
                  && var version := codec.file.directory.history[i].At(codec.file.target);
                     version == previous || UnionShown(codec.toml, version, before, desired, restore, None)
  }

  lemma PlannedIsReadable(codec: CodexConfigCodec, version: Version, before: Snapshot, desired: Owned, restore: ProviderRestore,
                          historical: FileIdentity, installed: FileState)
    requires UnionPlanned(codec.toml, version, before, desired, restore, historical, installed)
    ensures codec.Readable(version, before.owned.key)
    ensures Applied(DocumentOf(codec.toml, version).value, before.owned.key, desired, false).Some?
    ensures Restored(Applied(DocumentOf(codec.toml, version).value, before.owned.key, desired, false).value, restore).Some?
    ensures Union(DocumentOf(codec.toml, version).value, before.owned.key, desired, restore).Some?
    ensures before.identity == IdentityOf(version)
    ensures SnapshotOf(IdentityOf(version), DocumentOf(codec.toml, version).value, before.owned.key) == Some(before)
  {
    hide Applied, Restored, Capture, Obtainable, FaithfulRestore, Unrelated, SelectedRestore, Toml.Lawful;
  }

  lemma NoImagesYet(codec: CodexConfigCodec, version: Version, before: Snapshot, desired: Owned, restore: ProviderRestore)
    ensures UnionImages(codec, version, |codec.file.directory.history|, before, desired, restore)
  {}

  /** The images of the replacement are those of a union. */
  lemma UnionWritten(codec: CodexConfigCodec, temporary: string, before: Snapshot, desired: Owned, restore: ProviderRestore,
                     historical: FileIdentity, installed: FileState, start: Image, earlier: seq<Image>, outcome: Outcome, at: nat)
    requires start.Valid() && 0 < |earlier| && earlier[|earlier| - 1] == start
    requires UnionPlanned(codec.toml, start.At(codec.file.target), before, desired, restore, historical, installed)
    requires var next := Union(DocumentOf(codec.toml, start.At(codec.file.target)).value, before.owned.key, desired, restore).value;
             codec.file.Replaced(Job(codec.file.target, temporary, before.identity, !installed.present && before.identity.Present?,
                                     codec.toml.format(next), ModeOf(historical)),
                                 start, earlier, outcome, at, false)
    ensures UnionImages(codec, start.At(codec.file.target), |earlier|, before, desired, restore)
    ensures outcome.Done? && (before.identity.Present? || installed.present)
            ==> Regular(codec.Current())
                && UnionShown(codec.toml, codec.Current(), before, desired, restore, Some(installed))
                && DocumentOf(codec.toml, codec.Current())
                   == Union(DocumentOf(codec.toml, start.At(codec.file.target)).value, before.owned.key, desired, restore)
    ensures outcome.Done? && before.identity.Missing? ==> codec.Current().Some?
  {
    hide Union, UnionShown, Obtainable, FaithfulRestore, SnapshotOf, Job.Undisturbed, Job.Intended;
    var history, target := codec.file.directory.history, codec.file.target;
    var next := Union(DocumentOf(codec.toml, start.At(target)).value, before.owned.key, desired, restore).value;
    var job := Job(target, temporary, before.identity, !installed.present && before.identity.Present?,
                   codec.toml.format(next), ModeOf(historical));
    forall i | |earlier| - 1 <= i < |history|
      ensures history[i].Valid()
      ensures history[i].At(target) == start.At(target)
              || UnionShown(codec.toml, history[i].At(target), before, desired, restore, None)
      ensures job.Intended(history[i]) && job.removes == !installed.present ==>
                && Regular(history[i].At(target)) && UnionShown(codec.toml, history[i].At(target), before, desired, restore, Some(installed))
                && DocumentOf(codec.toml, history[i].At(target))
                   == Union(DocumentOf(codec.toml, start.At(target)).value, before.owned.key, desired, restore)
    {
      UnionImage(codec.toml, job, history[i], history[at], before, desired, restore, historical, installed);
    }
    if outcome.Done? && before.identity.Missing? {
      IntendedExists(job, codec.file.directory.image);
    }
  }

  lemma IntendedExists(job: Job, image: Image)
    requires image.Valid() && job.Intended(image) && !job.removes
    ensures image.At(job.target).Some?
  {}

  /** `verify_restore_union`. */
  method VerifyRestoreUnion(codec: CodexConfigCodec, before: Snapshot, desired: Owned, restore: ProviderRestore,
                            installed: Option<FileState>)
    returns (problem: Option<Problem>)
    requires codec.file.directory.Valid()
    ensures problem.None? ==> UnionShown(codec.toml, codec.Current(), before, desired, restore, installed)
    ensures codec.file.directory.faultless && Regular(codec.Current())
            && UnionShown(codec.toml, codec.Current(), before, desired, restore, installed)
            ==> problem.None?
  {
    hide Capture, Unrelated, SelectedRestore, SameMeaning, CaptureRestore, Strip;
    var read := codec.ReadSnapshotForKey(desired.key);
    if read.Err? {
      return Some(read.problem);
    }
    var (current, root) := read.value;
    var ownedMatches := SameMeaning(current.owned, desired);
    var providerMatches := CaptureRestore(root, restore.key) == restore;
    var unrelatedMatches := Strip(current.unrelated, restore.key) == Strip(before.unrelated, desired.key);
    var fileMatches := installed.None? ||
                       (current.identity.Exists() == installed.value.present
                        && (installed.value.present ==> current.identity.Present? && Some(current.identity.mode) == installed.value.mode));
    if !(ownedMatches && providerMatches && unrelatedMatches && fileMatches) {
      return Some(ConfigurationWriteFailed);
    }
    problem := None;
  }

  /** Such a plan: an empty union over a missing file. */
  lemma EmptyUnionOverNothing(toml: Toml) returns (before: Snapshot, desired: Owned, restore: ProviderRestore, installed: FileState)
    requires toml.Lawful()
    ensures UnionPlanned(toml, None, before, desired, restore, Missing, installed)
    ensures before.identity.Missing? && !installed.present
  {
    hide Toml.Lawful;
    var nothing: Fields := map[];
    assert DocumentOf(toml, None) == Some(nothing) by { EmptyIsParsed(toml); }
    EmptyDocument("b");
    before := SnapshotOf(Missing, nothing, "b").value;
    desired := Owned("x", None, None, map[]);
    restore := Absent("b");
    assert nothing - {MODEL} == nothing && nothing - {SELECTOR} == nothing;
    assert Applied(nothing, "b", desired, false) == Some(nothing);
    assert Union(nothing, "b", desired, restore) == Some(nothing);
    installed := Planned(nothing, Missing);
  }

  lemma EmptyIsParsed(toml: Toml)
    requires toml.Lawful()
    ensures toml.parse([]) == Some(map[])
  {}

  // ---- and back

  lemma ClearedHasNoFields(root: Fields, key: string)
    ensures match Provider(Clear(root, key), key)
            case Some(provider) => provider != map[] && provider - FIELDS == provider
            case None => true
  {
    if Provider(Clear(root, key), key).Some? {
      var rest := Provider(root, key).value - FIELDS;
      assert rest - FIELDS == rest;
    }
  }

  lemma NothingToClear(root: Fields, key: string)
    requires match Provider(root, key)
             case Some(provider) => provider != map[] && provider - FIELDS == provider
             case None => true
    ensures Clear(root, key) == root
  {
    hide FIELDS;
    if Inner(root, PROVIDERS).Some? {
      var providers := Inner(root, PROVIDERS).value;
      if Inner(providers, key).Some? {
        assert WithInner(providers, key, Inner(providers, key).value) == providers;
      }
      assert ClearProvider(providers, key) == providers;
      assert WithInner(root, PROVIDERS, providers) == root;
    }
  }

  lemma DroppedStays(root: Fields, restore: ProviderRestore, r: Fields)
    requires Restored(root, restore) == Some(r)
    ensures DropEmpty(r) == r
  {
    hide Replaced, Clear;
    if restore.Present? && restore.fields != map[] {
      assert restore.key in r[PROVIDERS].fields;
    }
  }

  /** The way back to a missing file's empty state leaves an empty document. */
  lemma NothingLeft(toml: Toml, root: Fields, before: Owned, u: TreeFields, desiredKey: string, r: Fields)
    requires WayBack(toml, root, before, u, desiredKey) == Some(r)
    requires before == Owned(before.key, None, None, map[]) && before.key != desiredKey && before.key != "" && desiredKey != ""
    requires Unrelated(r, before.key) == map[]
    ensures r == map[]
  {
    hide Applied, Restored, Clear, DropEmpty, FIELDS, Meaning, MeaningOf, PriorProvider;
    var applied := Applied(root, desiredKey, before, false).value;
    var prior := PriorProvider(toml, u, desiredKey).value;
    var selected, done := AppliedSteps(root, desiredKey, before, false, applied);
    ProviderEditKeepsTop(selected, before.key, before.fields, false, done, MODEL);
    ProviderEditKeepsTop(selected, before.key, before.fields, false, done, SELECTOR);
    RestoredOther(applied, prior, r, before.key);
    assert MODEL !in r && SELECTOR !in r by {
      assert Lookup(r, MODEL).None? && Lookup(r, SELECTOR).None?;
    }
    ClearedHasNoFields(selected, before.key);
    DropKeepsProviders(done, before.key);
    assert r - {MODEL, SELECTOR} == r;
    NothingToClear(r, before.key);
    DroppedStays(applied, prior, r);
    EmptyMeaning(r);
  }

  /** A file that shows the union of a genuine snapshot. */
  ghost predicate UnionSettled(toml: Toml, version: Version, before: Snapshot, expected: Owned, restore: ProviderRestore,
                               installed: Option<FileState>) {
    && Regular(version) && (before.identity.Missing? ==> version.Some?) && toml.Lawful() && Genuine(toml, before)
    && restore.key == before.owned.key != expected.key && before.owned.key != "" && expected.key != ""
    && UnionShown(toml, version, before, expected, restore, installed)
  }

  /** The document of the way back, when its edits go through. */
  ghost function BackFrom(toml: Toml, version: Version, before: Snapshot, expected: Owned): Option<Fields> {
    match DocumentOf(toml, version)
    case None => None
    case Some(root) => WayBack(toml, root, before.owned, before.unrelated, expected.key)
  }

  /** The document the way back leads to: the owned state from before always, the unrelated part unless an empty table got lost. */
  lemma WayBackDocument(toml: Toml, version: Version, before: Snapshot, expected: Owned, restore: ProviderRestore,
                        installed: Option<FileState>, r: Fields)
    requires UnionSettled(toml, version, before, expected, restore, installed)
    requires BackFrom(toml, version, before, expected) == Some(r)
    ensures Capture(r, before.owned.key) == Some(before.owned)
    ensures Unrelated(r, before.owned.key) == before.unrelated <==> NoEmptyProvider(before.unrelated, expected.key)
    ensures before.identity.Missing? ==> r == map[]
    ensures toml.parse(toml.format(r)) == Some(r)
  {
    hide WayBack, UnionMatches, NoEmptyProvider, Unrelated, Capture, SelectedRestore, Strip, FaithfulFields, DropTree;
    hide Toml.Printable, Toml.PrintableOwned, Toml.Writes;
    GenuineParts(toml, before);
    var there: Version, start: Fields :|
      DocumentOf(toml, there) == Some(start) && SnapshotOf(IdentityOf(there), start, before.owned.key) == Some(before);
    SnapshotParts(IdentityOf(there), start, before);
    var root := DocumentOf(toml, version).value;
    WayBackRestores(toml, start, root, before.owned, expected, restore, r);
    WayBackPrintable(toml, root, before.owned, before.unrelated, expected.key, r);
    if before.identity.Missing? {
      EmptyLeavesNone(expected.key);
      NothingLeft(toml, root, before.owned, before.unrelated, expected.key, r);
    }
  }

  lemma EmptyLeavesNone(key: string)
    ensures NoEmptyProvider(map[], key)
  {}

  lemma WayBackPrintable(toml: Toml, root: Fields, before: Owned, u: TreeFields, key: string, r: Fields)
    requires toml.Writes() && toml.Printable(root) && toml.PrintableOwned(before)
    requires WayBack(toml, root, before, u, key) == Some(r)
    ensures toml.Printable(r)
  {
    hide Applied, Restored, PriorProvider, Toml.Printable, Toml.PrintableOwned, Toml.PrintableRestore, Toml.Writes;
    var prior := PriorProvider(toml, u, key).value;
    PriorFaithful(toml, u, key, prior);
    toml.AppliedPrintable(root, key, before, false);
    toml.RestoredPrintable(Applied(root, key, before, false).value, prior);
  }

  /** What the crash points of the way back show: the union still, or the owned state from before already. */
  ghost predicate BackImages(codec: CodexConfigCodec, previous: Version, from: nat, before: Snapshot, expected: Owned)
    reads codec.file.directory
  {
    forall i :: from <= i < |codec.file.directory.history| ==>
      && codec.file.directory.history[i].Valid()
      && BackShown(codec.toml, previous, codec.file.directory.history[i].At(codec.file.target), before, expected)
  }

  ghost predicate BackShown(toml: Toml, previous: Version, version: Version, before: Snapshot, expected: Owned) {
    || version == previous
    || (&& DocumentOf(toml, version).Some? && Capture(DocumentOf(toml, version).value, before.owned.key) == Some(before.owned)
        && (NoEmptyProvider(before.unrelated, expected.key) ==> Shows(toml, version, before.owned, before.unrelated)))
  }

  /** The edits of `restore_union_or_confirm_before_inner`. */
  method EditBack(toml: Toml, root: Fields, before: Snapshot, expected: Owned) returns (r: Option<Fields>)
    ensures before.owned.key != expected.key ==> r == WayBack(toml, root, before.owned, before.unrelated, expected.key)
    ensures before.owned.key == expected.key ==> r == Applied(root, expected.key, before.owned, false)
  {
    hide Applied, Restored, PriorProvider;
    var document := new Document(root);
    var ok := document.ApplyOwned(expected.key, before.owned, false);
    if !ok {
      return None;
    }
    if expected.key != before.owned.key {
      var prior := PriorProvider(toml, before.unrelated, expected.key);
      if prior.None? {
        return None;
      }
      ok := document.ApplyProviderRestore(prior.value);
      if !ok {
        return None;
      }
    }
    r := Some(document.root);
  }

  /** The file shows the state before as it is read under `key`, which is a confirmation only under the key of that state. */
  ghost predicate BeforeShown(toml: Toml, version: Version, before: Snapshot, key: string) {
    before.owned.key == key && Shows(toml, version, before.owned, before.unrelated) && SameFileState(version, before.identity)
  }

  /**
    `restore_union_or_confirm_before`. From a file that shows the union, it succeeds, when nothing
    fails, exactly when the edits of the way back go through and no empty table gets lost; every crash
    point shows the union still or the owned state from before.
  */
  method RestoreUnionOrConfirmBefore(codec: CodexConfigCodec, temporary: string, before: Snapshot, expected: Owned,
                                     restore: ProviderRestore, installed: Option<FileState>, externalWriter: bool)
    returns (problem: Option<Problem>)
    requires codec.file.directory.Valid() && temporary != codec.file.target
    modifies codec.file.directory
    ensures codec.file.directory.Valid() && codec.file.directory.Extends(old(codec.file.directory.history))
    ensures problem.None? ==>
              && Shows(codec.toml, codec.Current(), before.owned, before.unrelated)
              && SameFileState(codec.Current(), before.identity)
    ensures BeforeShown(codec.toml, old(codec.Current()), before, expected.key) && Regular(old(codec.Current()))
            && codec.file.directory.calls.AllWork(READING)
            ==> problem.None?
    ensures BeforeShown(codec.toml, old(codec.Current()), before, expected.key)
            || !UnionShown(codec.toml, old(codec.Current()), before, expected, restore, installed)
            || (before.owned.key != expected.key && BackFrom(codec.toml, old(codec.Current()), before, expected).None?)
            ==> && (problem.None? ==> BeforeShown(codec.toml, old(codec.Current()), before, expected.key))
                && codec.file.directory.image == old(codec.file.directory.image)
                && codec.file.directory.history == old(codec.file.directory.history)
    ensures !externalWriter && old(UnionSettled(codec.toml, codec.Current(), before, expected, restore, installed))
            ==> BackImages(codec, old(codec.Current()), |old(codec.file.directory.history)|, before, expected)
    ensures codec.file.directory.faultless && !externalWriter && temporary !in old(codec.file.directory.image).entries
            && old(UnionSettled(codec.toml, codec.Current(), before, expected, restore, installed))
            ==> (problem.None? <==> BackFrom(codec.toml, old(codec.Current()), before, expected).Some?
                                    && NoEmptyProvider(before.unrelated, expected.key))
  {
    hide Applied, Restored, UnionMatches, Capture, Unrelated, SelectedRestore, NoEmptyProvider, Job.Undisturbed, Job.Safe;
    hide WayBack, Genuine, Toml.Lawful, BackShown, UnionSettled, UnionShown;
    var directory, file := codec.file.directory, codec.file;
    ghost var start, earlier, previous := directory.image, directory.history, codec.Current();
    ghost var settled := UnionSettled(codec.toml, previous, before, expected, restore, installed);
    if settled {
      SettledIsReadable(codec, previous, before, expected, restore, installed);
    }
    var read := codec.ReadSnapshotForKey(expected.key);
    if read.Err? {
      return Some(read.problem);
    }
    var (current, root) := read.value;
    CapturedKey(current.identity, root, expected.key, current);
    if current.owned == before.owned && current.unrelated == before.unrelated
       && current.identity.Exists() == before.identity.Exists()
       && (!current.identity.Exists() || current.identity.mode == before.identity.mode) {
      return None;
    }
    problem := VerifyRestoreUnion(codec, before, expected, restore, installed);
    if problem.Some? {
      return Some(RecoveryRequiredProblem);
    }
    var next := EditBack(codec.toml, root, before, expected);
    if next.None? {
      return Some(RecoveryRequiredProblem);
    }
    var removeFile := before.identity.Missing? && next.value == map[];
    ghost var outcome, at;
    problem, outcome, at := Install(codec.file, temporary, current.identity, codec.toml.format(next.value), removeFile,
                                    ModeOf(before.identity), externalWriter);
    if settled && !externalWriter {
      BackWritten(codec, temporary, before, expected, restore, installed, next.value, removeFile, start, earlier, outcome, at);
    }
    if problem.Some? {
      return problem;
    }
    var matches := codec.MatchesBefore(before);
    problem := if matches then None else Some(RecoveryRequiredProblem);
  }

  lemma CapturedKey(identity: FileIdentity, root: Fields, key: string, snapshot: Snapshot)
    requires SnapshotOf(identity, root, key) == Some(snapshot)
    ensures snapshot.owned.key == key && snapshot.identity == identity
  {}

  lemma SettledIsReadable(codec: CodexConfigCodec, version: Version, before: Snapshot, expected: Owned,
                          restore: ProviderRestore, installed: Option<FileState>)
    requires UnionSettled(codec.toml, version, before, expected, restore, installed)
    ensures codec.Readable(version, expected.key) && before.owned.key != expected.key
    ensures UnionShown(codec.toml, version, before, expected, restore, installed)
    ensures before.identity.Missing? ==> version.Some?
  {
    hide Capture, Toml.Lawful;
  }

  /** One image of the write of the way back. */
  lemma BackImage(toml: Toml, job: Job, image: Image, base: Image, before: Snapshot, expected: Owned, restore: ProviderRestore,
                  installed: Option<FileState>, r: Fields)
    requires job.Undisturbed(image, base)
    requires UnionSettled(toml, base.At(job.target), before, expected, restore, installed)
    requires BackFrom(toml, base.At(job.target), before, expected) == Some(r)
    requires job.bytes == toml.format(r) && job.mode == ModeOf(before.identity) && job.removes == (before.identity.Missing? && r == map[])
    ensures BackShown(toml, base.At(job.target), image.At(job.target), before, expected)
    ensures job.Intended(image) ==>
              && Regular(image.At(job.target)) && DocumentOf(toml, image.At(job.target)) == Some(r)
              && SameFileState(image.At(job.target), before.identity)
              && (Shows(toml, image.At(job.target), before.owned, before.unrelated)
                  <==> NoEmptyProvider(before.unrelated, expected.key))
  {
    hide Capture, Unrelated, Genuine, Strip, BackFrom, UnionShown, NoEmptyProvider, Job.Safe, DropTree, Toml.PrintableOwned;
    hide FaithfulFields, Toml.Printable, Toml.Writes;
    var now := image.At(job.target);
    GenuineParts(toml, before);
    WayBackDocument(toml, base.At(job.target), before, expected, restore, installed, r);
    if Written(now, job.bytes, job.mode) {
      WrittenMode(now, job.bytes, before.identity);
    }
  }

  /** All images of the write, and its end. */
  lemma BackWritten(codec: CodexConfigCodec, temporary: string, before: Snapshot, expected: Owned, restore: ProviderRestore,
                    installed: Option<FileState>, r: Fields, removeFile: bool, start: Image, earlier: seq<Image>,
                    outcome: Outcome, at: nat)
    requires start.Valid() && 0 < |earlier| && earlier[|earlier| - 1] == start
    requires UnionSettled(codec.toml, start.At(codec.file.target), before, expected, restore, installed)
    requires BackFrom(codec.toml, start.At(codec.file.target), before, expected) == Some(r)
    requires removeFile == (before.identity.Missing? && r == map[])
    requires codec.file.Replaced(Job(codec.file.target, temporary, IdentityOf(start.At(codec.file.target)), removeFile,
                                     codec.toml.format(r), ModeOf(before.identity)),
                                 start, earlier, outcome, at, false)
    ensures BackImages(codec, start.At(codec.file.target), |earlier|, before, expected)
    ensures outcome.Done? ==>
              && Regular(codec.Current()) && SameFileState(codec.Current(), before.identity)
              && (Shows(codec.toml, codec.Current(), before.owned, before.unrelated)
                  <==> NoEmptyProvider(before.unrelated, expected.key))
  {
    hide UnionSettled, BackFrom, BackShown, Shows, NoEmptyProvider, SameFileState, Job.Undisturbed, Job.Intended;
    var history, target := codec.file.directory.history, codec.file.target;
    var job := Job(target, temporary, IdentityOf(start.At(target)), removeFile, codec.toml.format(r), ModeOf(before.identity));
    SettledExists(codec.toml, start.At(target), before, expected, restore, installed);
    forall i | |earlier| - 1 <= i < |history|
      ensures history[i].Valid() && BackShown(codec.toml, start.At(target), history[i].At(target), before, expected)
      ensures job.Intended(history[i]) ==>
                && Regular(history[i].At(target)) && SameFileState(history[i].At(target), before.identity)
                && (Shows(codec.toml, history[i].At(target), before.owned, before.unrelated)
                    <==> NoEmptyProvider(before.unrelated, expected.key))
    {
      UndisturbedIsValid(job, history[i], history[at]);
      BackImage(codec.toml, job, history[i], history[at], before, expected, restore, installed, r);
    }
  }

  lemma SettledExists(toml: Toml, version: Version, before: Snapshot, expected: Owned, restore: ProviderRestore, installed: Option<FileState>)
    requires UnionSettled(toml, version, before, expected, restore, installed)
    ensures before.identity.Missing? ==> version.Some?
  {
    hide Toml.Lawful, Genuine, UnionShown;
  }

  lemma UndisturbedIsValid(job: Job, image: Image, base: Image)
    requires job.Undisturbed(image, base)
    ensures image.Valid() && base.Valid()
  {
    hide Job.Safe;
  }

  // ---- there and back

  /** The file after a union that was written, or that removed it, and whether it can be taken back. */
  lemma UnionUndoable(toml: Toml, previous: Version, version: Version, before: Snapshot, desired: Owned, restore: ProviderRestore,
                      historical: FileIdentity, installed: FileState)
    requires UnionPlanned(toml, previous, before, desired, restore, historical, installed) && before.owned.key != ""
    requires DocumentOf(toml, version) == Union(DocumentOf(toml, previous).value, before.owned.key, desired, restore)
    ensures BackFrom(toml, version, before, desired).Some?
            <==> UnionWayOpen(DocumentOf(toml, previous).value, before.owned, desired, restore)
                 && Writable(toml, before.unrelated, desired.key)
  {
    hide Union, WayBack, UnionWayOpen, Writable, SnapshotOf, Obtainable, FaithfulRestore, Toml.Lawful, Toml.PrintableOwned;
    var root := DocumentOf(toml, previous).value;
    SnapshotParts(IdentityOf(previous), root, before);
    LawfulWrites(toml);
    UnionReturnsIff(toml, root, before.owned, desired, restore, DocumentOf(toml, version).value);
  }

  lemma LawfulWrites(toml: Toml)
    requires toml.Lawful()
    ensures toml.Writes()
  {
    hide Toml.Writes;
  }

  /** A union over the inline provider of `InlineTableIsStuck` cannot be taken back either. */
  lemma InlineUnionIsStuck(toml: Toml) returns (before: Owned, desired: Owned, restore: ProviderRestore, root: Fields)
    requires toml.Writes()
    ensures Capture(InlineDocument(), "b") == Some(before) && before.key == restore.key == "b" && Obtainable(restore)
    ensures desired.Faithful() && Union(InlineDocument(), "b", desired, restore) == Some(root)
    ensures WayBack(toml, root, before, Unrelated(InlineDocument(), "b"), desired.key).None?
  {
    hide Applied, Restored, WayBack, Unrelated, Toml.Writes, FieldsOf, Writable;
    var start := InlineDocument();
    var provider := start[PROVIDERS].fields["b"].fields;
    before := Capture(start, "b").value;
    desired := NamedProvider();
    restore := Absent("b");
    assert Provider(start, "b") == Some(provider) && "name" in FIELDS && "name" in before.fields && "extra" in provider - FIELDS;
    AppliedIffOpen(start, "b", desired, false);
    ClearSeen(start, "b");
    RestoredIffOpen(Applied(start, "b", desired, false).value, restore);
    root := Union(start, "b", desired, restore).value;
    UnionReturnsIff(toml, start, before, desired, restore, root);
  }

  /**
    An undisturbed union and an undisturbed way back. The way back restores the file exactly when
    nothing inline was left where provider fields have to go, the serialiser takes the fields of the
    desired provider, and no empty table stood under its key.
  */
  method UnionThenBack(codec: CodexConfigCodec, before: Snapshot, desired: Owned, restore: ProviderRestore,
                       historical: FileIdentity, installed: FileState, first: string, second: string)
    returns (made: bool, found: Image, undone: bool)
    requires codec.file.directory.Valid() && codec.file.directory.faultless
    requires first != codec.file.target && second != codec.file.target && first !in codec.file.directory.image.entries
    requires UnionPlanned(codec.toml, codec.Current(), before, desired, restore, historical, installed) && before.owned.key != ""
    modifies codec.file.directory
    ensures codec.file.directory.Valid()
    ensures made <==> before.identity.Present? || installed.present
    ensures made && second !in found.entries ==>
              (undone <==>
                && UnionWayOpen(old(DocumentOf(codec.toml, codec.Current()).value), before.owned, desired, restore)
                && Writable(codec.toml, before.unrelated, desired.key) && NoEmptyProvider(before.unrelated, desired.key))
    ensures undone ==> Shows(codec.toml, codec.Current(), before.owned, before.unrelated)
  {
    hide UnionPlanned, UnionWayOpen, Writable, NoEmptyProvider, UnionSettled, BackFrom, Shows, UnionShown, UnionImages;
    hide BackImages, SameFileState, Union, DocumentOf, Regular;
    ghost var previous := codec.Current();
    var problem;
    ghost var at;
    problem, at := AtomicRestoreUnion(codec, first, before, desired, restore, historical, installed, false);
    made := problem.None?;
    found := codec.file.directory.image;
    if made {
      UnionUndoable(codec.toml, previous, codec.Current(), before, desired, restore, historical, installed);
      UnionIsSettled(codec, previous, before, desired, restore, historical, installed);
    }
    problem := RestoreUnionOrConfirmBefore(codec, second, before, desired, restore, Some(installed), false);
    undone := problem.None?;
  }

  lemma PlannedIsGenuine(toml: Toml, version: Version, before: Snapshot, desired: Owned, restore: ProviderRestore,
                         historical: FileIdentity, installed: FileState)
    requires UnionPlanned(toml, version, before, desired, restore, historical, installed)
    ensures Genuine(toml, before)
  {
    hide Union, Obtainable, FaithfulRestore, Capture, Unrelated, SelectedRestore, Toml.Printable, Toml.OnLines, Toml.Writes;
    toml.CapturePrintable(DocumentOf(toml, version).value, before.owned.key);
    SnapshotParts(IdentityOf(version), DocumentOf(toml, version).value, before);
  }

  lemma UnionIsSettled(codec: CodexConfigCodec, previous: Version, before: Snapshot, desired: Owned, restore: ProviderRestore,
                       historical: FileIdentity, installed: FileState)
    requires codec.file.directory.Valid() && before.owned.key != ""
    requires UnionPlanned(codec.toml, previous, before, desired, restore, historical, installed)
    requires UnionShown(codec.toml, codec.Current(), before, desired, restore, Some(installed)) && Regular(codec.Current())
    requires before.identity.Missing? ==> installed.present
    ensures UnionSettled(codec.toml, codec.Current(), before, desired, restore, Some(installed))
  {
    hide Union, SnapshotOf, Obtainable, FaithfulRestore, Toml.Lawful, Toml.PrintableOwned, UnionMatches;
    ShownState(codec.toml, codec.Current(), before, desired, restore, installed);
    PlannedIsGenuine(codec.toml, previous, before, desired, restore, historical, installed);
  }
}
