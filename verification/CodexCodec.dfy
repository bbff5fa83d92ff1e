/**
  The Codex configuration codec over the managed file. TOML text is read and written by two given
  functions of which only the round trip is used; everything between them is the document model.
*/
module CodexCodec {
  import opened Bytes
  import opened Texts
  import opened Directories
  import opened ManagedFiles
  import opened Intents
  import opened Recoveries
  import opened CodexDocument
  import opened CodexApply
  import opened CodexToml
  import opened CodexTrees
  import opened CodexLaws
  import opened CodexOverride
  import opened CodexReturn
  import opened CodexRestoreUnion

  function DocumentOf(toml: Toml, version: Version): Option<Fields> { toml.parse(BytesOf(version)) }

  datatype Snapshot = Snapshot(identity: FileIdentity, owned: Owned, unrelated: TreeFields, selected: Option<ProviderRestore>)

  /** `capture_selected_provider_restore`: the provider in use, when it is not the owned one. */
  function SelectedRestore(root: Fields, key: string): Option<ProviderRestore> {
    match ItemText(Lookup(root, SELECTOR))
    case None => None
    case Some(item) =>
      if item.semantic.Leaf? && item.semantic.atom.Text? && !Blank(item.semantic.atom.text) && item.semantic.atom.text != key
      then Some(CaptureRestore(root, item.semantic.atom.text)) else None
  }

  /** `snapshot_from_document`. */
  function SnapshotOf(identity: FileIdentity, root: Fields, key: string): Option<Snapshot> {
    match Capture(root, key)
    case None => None
    case Some(owned) => Some(Snapshot(identity, owned, Unrelated(root, key), SelectedRestore(root, key)))
  }

  /** The version's document has exactly this owned state and this unrelated part. */
  ghost predicate Shows(toml: Toml, version: Version, owned: Owned, unrelated: TreeFields) {
    var root := DocumentOf(toml, version);
    root.Some? && Capture(root.value, owned.key) == Some(owned) && Unrelated(root.value, owned.key) == unrelated
  }

  /** The same up to the way the owned values are written. */
  ghost predicate Resembles(toml: Toml, version: Version, owned: Owned, unrelated: TreeFields) {
    var root := DocumentOf(toml, version);
    && root.Some? && Capture(root.value, owned.key).Some? && SameMeaning(Capture(root.value, owned.key).value, owned)
    && Unrelated(root.value, owned.key) == unrelated
  }

  /** The snapshot is that of this version. */
  ghost predicate IsSnapshotOf(toml: Toml, before: Snapshot, version: Version) {
    && DocumentOf(toml, version).Some?
    && SnapshotOf(IdentityOf(version), DocumentOf(toml, version).value, before.owned.key) == Some(before)
  }

  ghost predicate Regular(version: Version) { version.Some? ==> version.value.1.regular }

  /** `snapshot_file_state_matches` for the file as it is now. */
  predicate SameFileState(version: Version, identity: FileIdentity) {
    var now := IdentityOf(version);
    now.Exists() == identity.Exists() && (now.Present? && identity.Present? ==> now.mode == identity.mode)
  }

  /** The snapshot was read from some file, and its stored texts parse back to what they were taken from. */
  ghost predicate Genuine(toml: Toml, before: Snapshot) {
    toml.PrintableOwned(before.owned) &&
    exists version: Version, root: Fields ::
      && DocumentOf(toml, version) == Some(root)
      && SnapshotOf(IdentityOf(version), root, before.owned.key) == Some(before)
  }

  /**
    A state from which `restore` can write the one before, and give the file its permissions: those
    of a written file are those of the file it replaces.
  */
  ghost predicate Restorable(toml: Toml, version: Version, before: Snapshot, desired: Owned) {
    && Resembles(toml, version, desired, before.unrelated)
    && Applied(DocumentOf(toml, version).value, desired.key, before.owned, false).Some?
    && (before.identity.Present? ==> ModeOf(IdentityOf(version)) == before.identity.mode)
    && (before.identity.Missing? ==> version.Some?)
  }

  /** The owned state is the desired one, and the one before can be put in its place. */
  ghost predicate Rewritable(toml: Toml, version: Version, before: Snapshot, desired: Owned) {
    var root := DocumentOf(toml, version);
    && root.Some? && Capture(root.value, desired.key).Some? && SameMeaning(Capture(root.value, desired.key).value, desired)
    && Applied(root.value, desired.key, before.owned, false).Some?
  }

  /** What `reconcile_one` can roll back. */
  ghost predicate Recoverable(toml: Toml, version: Version, before: Snapshot, desired: Owned) {
    Regular(version)
    && (Shows(toml, version, before.owned, before.unrelated) || Restorable(toml, version, before, desired))
  }

  ghost predicate RecoverableFrom(toml: Toml, history: seq<Image>, from: nat, target: string, before: Snapshot, desired: Owned) {
    && from <= |history|
    && forall i :: from <= i < |history| ==> history[i].Valid() && Recoverable(toml, history[i].At(target), before, desired)
  }

  // ---- unrelated parts across keys

  /** Moving from one provider key to another strips the second from the unrelated part. */
  lemma UnrelatedMoves(root: Fields, current: string, owned: Owned, preserveDecor: bool, r: Fields)
    requires Applied(root, current, owned, preserveDecor) == Some(r) && owned.Faithful() && owned.key != "" && current != ""
    ensures Unrelated(r, owned.key) == Strip(Unrelated(root, current), owned.key)
  {
    hide Applied, Unrelated, Clear, ClearTree, DropTree, Rest;
    StripAfterApply(root, current, owned, preserveDecor, r);
    RestUnrelated(r, owned.key);
    RestUnrelated(root, current);
    if current == owned.key {
      StripTwice(Rest(root), current);
    } else {
      StripAfterClear(root, current);
      StripDropped(ClearTree(Rest(root), current), owned.key);
    }
  }

  /** The unrelated part leaves the provider key free: none of the owned fields there, and no empty table. */
  predicate LeavesFree(unrelated: TreeFields, key: string) {
    FieldsOf(unrelated, key) == map[] && NoEmptyProvider(unrelated, key)
  }

  lemma FreeIffStripped(tree: TreeFields, key: string)
    requires DropTree(tree) == tree
    ensures LeavesFree(tree, key) <==> Strip(tree, key) == tree
  {
    if LeavesFree(tree, key) {
      NothingToStrip(tree, key);
    } else if NodeAt(tree, PROVIDERS).Some? {
      StrippedIsFree(tree, key);
    }
  }

  lemma StrippedIsFree(tree: TreeFields, key: string)
    ensures LeavesFree(Strip(tree, key), key)
  {
    hide FIELDS;
    if NodeAt(tree, PROVIDERS).Some? {
      var providers := NodeAt(tree, PROVIDERS).value;
      var cleared := ClearProviderTree(providers, key);
      if NodeAt(providers, key).Some? {
        assert NodeAt(cleared, key).Some? ==> NodeAt(cleared, key).value == NodeAt(providers, key).value - FIELDS;
      }
      assert NodeAt(Strip(tree, key), PROVIDERS).Some? ==> NodeAt(Strip(tree, key), PROVIDERS).value == cleared;
    }
  }

  /**
    What `verify` compares after an application: it agrees with the snapshot exactly when the
    unrelated part leaves the desired key free.
  */
  lemma VerifyAgrees(root: Fields, key: string, desired: Owned, r: Fields)
    requires Applied(root, key, desired, true) == Some(r) && desired.Faithful() && desired.key != "" && key != ""
    ensures Capture(r, desired.key).Some? && SameMeaning(Capture(r, desired.key).value, desired)
    ensures Unrelated(r, desired.key) == Unrelated(root, key) <==> LeavesFree(Unrelated(root, key), desired.key)
  {
    hide Applied, Unrelated, Strip, Capture, LeavesFree, DropTree;
    CaptureAfterApply(root, key, desired, true, r);
    UnrelatedMoves(root, key, desired, true, r);
    RestUnrelated(root, key);
    StripDrops(Rest(root), key);
    FreeIffStripped(Unrelated(root, key), desired.key);
  }

  /** The desired provider after an application: its fields, and never an empty table. */
  lemma DesiredAfterApply(root: Fields, key: string, desired: Owned, r: Fields)
    requires Applied(root, key, desired, true) == Some(r) && desired.Faithful() && desired.key != ""
    ensures FieldsOf(MeaningOf(r), desired.key) == SemanticsOf(desired.fields)
    ensures NoEmptyProvider(MeaningOf(r), desired.key)
  {
    hide Applied, SetProvider, Clear, DropEmpty, CaptureFields, FaithfulFields, FIELDS, FieldsOf, Meaning, MeaningOf;
    var selected, done := AppliedSteps(root, key, desired, true, r);
    DropKeepsProviders(done, desired.key);
    OtherProvider(done, r, desired.key);
    EmptyProviderSeen(r, desired.key);
    if desired.fields != map[] {
      CaptureAfterSet(selected, desired.key, desired.fields, true, done);
      NotEmptyWithFields(done, desired.key, desired.fields);
    } else {
      CaptureAfterClear(selected, desired.key);
      ClearedNotEmpty(selected, desired.key);
    }
  }

  lemma NotEmptyWithFields(root: Fields, key: string, fields: OwnedFields)
    requires FieldsOf(MeaningOf(root), key) == SemanticsOf(fields) && fields != map[]
    ensures Provider(root, key) != Some(map[])
  {
    hide Meaning, FIELDS, MeaningOf;
    assert SemanticsOf(fields).Keys == fields.Keys;
    if Provider(root, key) == Some(map[]) {
      FieldsOfProvider(root, key, map[]);
    }
  }

  /** The document of the next example: `[model_providers.x]` with `name = "m"`. */
  function TakenDocument(): Fields {
    var other: Fields := map["name" := Scalar(Decor(" ", ""), "\"m\"", Text("m"))];
    var providers: Fields := map["x" := Table(other)];
    map[PROVIDERS := Table(providers)]
  }

  /**
    Its own provider has the desired key: the application is refused by the check afterwards, but it
    has been written, and provider `x` has lost its own name in it.
  */
  lemma TakenKeyIsRefused() returns (desired: Owned, r: Fields)
    ensures desired == NamedProvider() && desired.Faithful()
    ensures Capture(TakenDocument(), "b").Some? && Applied(TakenDocument(), "b", desired, true) == Some(r)
    ensures Unrelated(r, "x") != Unrelated(TakenDocument(), "b")
    ensures FieldsOf(Unrelated(TakenDocument(), "b"), "x") == map["name" := Leaf(Text("m"))]
    ensures FieldsOf(MeaningOf(r), "x") == map["name" := Leaf(Text("n"))]
  {
    hide Unrelated, Applied;
    desired := NamedProvider();
    var root := TakenDocument();
    ClearNothing(root, "b");
    AppliedIffOpen(root, "b", desired, true);
    r := Applied(root, "b", desired, true).value;
    hide TakenDocument, NamedProvider, Owned.Faithful;
    VerifyAgrees(root, "b", desired, r);
    TakenFields();
    assert "name" in FieldsOf(Unrelated(root, "b"), "x");
    DesiredAfterApply(root, "b", desired, r);
    NamedFields();
  }

  lemma NamedFields()
    ensures SemanticsOf(NamedProvider().fields) == map["name" := Leaf(Text("n"))]
  {}

  lemma TakenFields()
    ensures FieldsOf(Unrelated(TakenDocument(), "b"), "x") == map["name" := Leaf(Text("m"))]
  {
    hide Unrelated;
    var root := TakenDocument();
    var providers := root[PROVIDERS].fields;
    var other := providers["x"].fields;
    assert "x" in providers && Inner(root, PROVIDERS) == Some(providers);
    UnrelatedOfNothing(root, "b");
    assert Provider(root, "x") == Some(other);
    FieldsOfProvider(root, "x", other);
    assert "name" in FIELDS;
  }

  /** A document without the owned top-level keys and without the provider is unrelated as a whole. */
  lemma UnrelatedOfNothing(root: Fields, key: string)
    requires MODEL !in root && SELECTOR !in root && Provider(root, key).None? && DropEmpty(root) == root
    ensures Unrelated(root, key) == MeaningOf(root)
  {
    assert root - {MODEL, SELECTOR} == root;
    ClearNothing(root, key);
  }

  /** Whether the top-level keys collide does not depend on the provider. */
  lemma CollisionAtAnyKey(root: Fields, a: string, b: string)
    ensures Capture(root, a).Some? <==> Capture(root, b).Some?
  {}

  // ---- when the way back is open

  /** The document of the example: `[model_providers]` with `b = { name = "n", extra = 1 }`. */
  function InlineDocument(): Fields {
    var provider: Fields := map["name" := Scalar(Decor(" ", ""), "\"n\"", Text("n")), "extra" := Scalar(Decor(" ", ""), "1", Other("1"))];
    var providers: Fields := map["b" := Inline(Decor(" ", ""), provider)];
    map[PROVIDERS := Table(providers)]
  }

  /**
    A provider written as an inline table with one more field: applying under another key goes through
    and passes its check, but the state before cannot be applied again, now or at any later start.
  */
  lemma InlineTableIsStuck() returns (before: Owned, desired: Owned, r: Fields)
    ensures Capture(InlineDocument(), "b") == Some(before) && desired.Faithful() && desired.key == "x"
    ensures Applied(InlineDocument(), "b", desired, true) == Some(r) && Unrelated(r, "x") == Unrelated(InlineDocument(), "b")
    ensures Applied(r, "x", before, false).None?
  {
    hide Unrelated, Applied, Meaning, MeaningOf, FieldsOf;
    var root := InlineDocument();
    var provider := root[PROVIDERS].fields["b"].fields;
    before := Capture(root, "b").value;
    desired := NamedProvider();
    NamedProviderFaithful();
    assert Provider(root, "b") == Some(provider) && "name" in FIELDS && "name" in before.fields;
    assert "extra" in provider - FIELDS;
    AppliedIffOpen(root, "b", desired, true);
    ClearSeen(root, "b");
    r := Applied(root, "b", desired, true).value;
    assert Provider(root, "x").None?;
    XIsFree(root);
    VerifyAgrees(root, "b", desired, r);
    ReturnsIff(root, before, desired, r);
  }

  lemma XIsFree(root: Fields)
    requires Provider(root, "x").None?
    ensures LeavesFree(Unrelated(root, "b"), "x")
  {
    hide Unrelated, Meaning, MeaningOf, Strip, FieldsOf, NoEmptyProvider, Rest;
    RestUnrelated(root, "b");
    StripKeepsOthers(Rest(root), "b", "x");
    RestKeepsProviders(root, "x");
    NoProviderNoFields(root, "x");
    EmptyProviderSeen(root, "x");
  }

  // ---- what a write makes of a version

  lemma GenuineParts(toml: Toml, before: Snapshot)
    requires Genuine(toml, before) && toml.Lawful()
    ensures before.owned.Faithful() && toml.PrintableOwned(before.owned)
    ensures Strip(before.unrelated, before.owned.key) == before.unrelated && DropTree(before.unrelated) == before.unrelated
    ensures before.identity.Present? ==> before.identity.mode < 512
    ensures before.identity.Missing? ==> before.owned == Owned(before.owned.key, None, None, map[]) && before.unrelated == map[]
  {
    hide Strip, Unrelated, FaithfulFields, Meaning, DropTree, Toml.PrintableOwned, Toml.Printable;
    var version: Version, root: Fields :|
      DocumentOf(toml, version) == Some(root) && SnapshotOf(IdentityOf(version), root, before.owned.key) == Some(before);
    RestUnrelated(root, before.owned.key);
    StripTwice(Rest(root), before.owned.key);
    StripDrops(Rest(root), before.owned.key);
    if version.None? {
      EmptyDocument(before.owned.key);
    }
  }

  lemma EmptyDocument(key: string)
    ensures Capture(map[], key) == Some(Owned(key, None, None, map[])) && Unrelated(map[], key) == map[]
  {
    var none: Fields := map[];
    assert none - {MODEL, SELECTOR} == map[];
  }

  /** The file is gone, or has the permissions that a file replacing the earlier version gets. */
  ghost predicate KeepsMode(earlier: Version, now: Version) {
    now.Some? ==> IdentityOf(now).mode == ModeOf(IdentityOf(earlier))
  }

  /** A written version keeps the permissions of the one it replaces. */
  lemma WrittenMode(version: Version, bytes: Octets, expected: FileIdentity)
    requires Written(version, bytes, ModeOf(expected)) && (expected.Present? ==> expected.mode < 512)
    ensures expected.Present? ==> IdentityOf(version).Present? && IdentityOf(version).mode == expected.mode
  {}

  /** The snapshot is that of the file, and the desired state one that can be written. */
  ghost predicate IsStart(toml: Toml, version: Version, before: Snapshot, desired: Owned) {
    && toml.Lawful() && before.owned.key != "" && desired.key != "" && desired.Faithful() && toml.PrintableOwned(desired)
    && Regular(version) && DocumentOf(toml, version).Some? && toml.OnLines(DocumentOf(toml, version).value, before.owned.key)
    && SnapshotOf(IdentityOf(version), DocumentOf(toml, version).value, before.owned.key) == Some(before)
  }

  /** The file holds the complete application. */
  ghost predicate IsNew(toml: Toml, previous: Version, version: Version, before: Snapshot, desired: Owned) {
    && DocumentOf(toml, previous).Some?
    && var next := Applied(DocumentOf(toml, previous).value, before.owned.key, desired, true);
       next.Some? && Written(version, toml.format(next.value), ModeOf(before.identity))
  }

  ghost predicate OldOrNew(toml: Toml, previous: Version, version: Version, before: Snapshot, desired: Owned) {
    version == previous || IsNew(toml, previous, version, before, desired)
  }

  /** A written application passes its check exactly when the desired key was free. */
  lemma WrittenResembles(toml: Toml, previous: Version, version: Version, before: Snapshot, desired: Owned)
    requires IsStart(toml, previous, before, desired)
    requires var r := Applied(DocumentOf(toml, previous).value, before.owned.key, desired, true);
             r.Some? && Written(version, toml.format(r.value), ModeOf(before.identity))
    ensures DocumentOf(toml, version) == Applied(DocumentOf(toml, previous).value, before.owned.key, desired, true)
    ensures Resembles(toml, version, desired, before.unrelated) <==> LeavesFree(before.unrelated, desired.key)
  {
    hide Applied, Unrelated, Capture, SelectedRestore, LeavesFree, SameMeaning, Toml.PrintableOwned, Toml.Printable;
    var root := DocumentOf(toml, previous).value;
    var r := Applied(root, before.owned.key, desired, true).value;
    toml.AppliedPrintable(root, before.owned.key, desired, true);
    VerifyAgrees(root, before.owned.key, desired, r);
  }

  /** Every image of an application shows the state before or the whole desired state. */
  lemma ApplyKeepsRecoverable(toml: Toml, job: Job, image: Image, base: Image, root: Fields, applied: Fields, before: Snapshot, desired: Owned)
    requires toml.Lawful() && job.Undisturbed(image, base) && !job.removes && before.owned.key != "" && desired.key != ""
    requires var previous := base.At(job.target);
             && Regular(previous) && DocumentOf(toml, previous) == Some(root)
             && SnapshotOf(IdentityOf(previous), root, before.owned.key) == Some(before)
    requires Applied(root, before.owned.key, desired, true) == Some(applied)
    requires job.bytes == toml.format(applied) && job.mode == ModeOf(before.identity)
    requires desired.Faithful() && toml.PrintableOwned(desired) && LeavesFree(before.unrelated, desired.key)
    requires WayBackOpen(root, before.owned, desired.key)
    ensures Recoverable(toml, image.At(job.target), before, desired)
    ensures job.Intended(image) ==> Resembles(toml, image.At(job.target), desired, before.unrelated)
  {
    hide Applied, Unrelated, Capture, SelectedRestore, Job.Safe, LeavesFree, SameMeaning, FaithfulFields, WayBackOpen;
    hide Toml.PrintableOwned, Toml.Printable;
    var now := image.At(job.target);
    if Written(now, job.bytes, job.mode) {
      toml.AppliedPrintable(root, before.owned.key, desired, true);
      VerifyAgrees(root, before.owned.key, desired, applied);
      ReturnsIff(root, before.owned, desired, applied);
      WrittenMode(now, job.bytes, before.identity);
    }
  }

  /** Every image of a restoration shows the desired state still, or the state before already. */
  lemma RestoreKeepsRecoverable(toml: Toml, job: Job, image: Image, base: Image, root: Fields, restored: Fields, before: Snapshot, desired: Owned)
    requires toml.Lawful() && job.Undisturbed(image, base) && before.owned.key != "" && desired.key != ""
    requires var previous := base.At(job.target);
             && Regular(previous) && DocumentOf(toml, previous) == Some(root) && Restorable(toml, previous, before, desired)
    requires Applied(root, desired.key, before.owned, false) == Some(restored)
    requires job.bytes == toml.format(restored) && job.mode == ModeOf(IdentityOf(base.At(job.target)))
    requires Genuine(toml, before) && job.removes == before.identity.Missing?
    ensures Recoverable(toml, image.At(job.target), before, desired)
    ensures job.Intended(image) ==>
              && Shows(toml, image.At(job.target), before.owned, before.unrelated)
              && SameFileState(image.At(job.target), before.identity)
  {
    hide Applied, Unrelated, Capture, SelectedRestore, Job.Safe, Strip, SameMeaning, FaithfulFields, Genuine, DropTree;
    hide Toml.PrintableOwned, Toml.Printable;
    var previous, now := base.At(job.target), image.At(job.target);
    GenuineParts(toml, before);
    toml.AppliedPrintable(root, desired.key, before.owned, false);
    CaptureAfterApply(root, desired.key, before.owned, false, restored);
    UnrelatedMoves(root, desired.key, before.owned, false, restored);
    EmptyDocument(before.owned.key);
    if Written(now, job.bytes, job.mode) {
      WrittenMode(now, job.bytes, IdentityOf(previous));
    }
  }

  class CodexConfigCodec {
    const file: ManagedFile
    const toml: Toml

    constructor (file: ManagedFile, toml: Toml)
      ensures this.file == file && this.toml == toml
    {
      this.file := file;
      this.toml := toml;
    }

    ghost function Current(): Version
      requires file.directory.Valid()
      reads file.directory
    {
      file.directory.image.At(file.target)
    }

    /** Readable, parseable, and no table where an owned value belongs. */
    ghost predicate Readable(version: Version, key: string) {
      && Regular(version) && DocumentOf(toml, version).Some?
      && Capture(DocumentOf(toml, version).value, key).Some?
    }

    /** `read_snapshot_for_key`. */
    method ReadSnapshotForKey(key: string) returns (r: Result<(Snapshot, Fields)>)
      requires file.directory.Valid()
      ensures r.Ok? ==>
                && DocumentOf(toml, Current()) == Some(r.value.1)
                && SnapshotOf(IdentityOf(Current()), r.value.1, key) == Some(r.value.0)
      ensures r.Ok? ==> Regular(Current())
      ensures file.directory.calls.AllWork(READING) && Readable(Current(), key) ==> r.Ok?
      ensures file.directory.calls.AllFail? ==> r.Err?
    {
      hide Capture, Unrelated, SelectedRestore;
      var contents := file.Read();
      if contents.None? {
        return Err(ConfigurationWriteFailed);
      }
      var document := toml.parse(contents.value.bytes);
      if document.None? {
        return Err(ConfigurationWriteFailed);
      }
      var snapshot := SnapshotOf(contents.value.identity, document.value, key);
      if snapshot.None? {
        return Err(ConfigurationCollision);
      }
      r := Ok((snapshot.value, document.value));
    }

    /** The replacement that writing `next` over the given version amounts to. */
    ghost function WriteJob(temporary: string, expected: Snapshot, next: Fields, removeFile: bool): Job {
      file.JobOf(temporary, expected.identity, toml.format(next), removeFile)
    }

    /** What a write of `owned` over `expected` promises; compare the Claude codec's `Wrote`. */
    ghost predicate Wrote(temporary: string, expected: Snapshot, owned: Owned, removeFile: bool, preserveDecor: bool,
                          externalWriter: bool, before: Image, earlier: seq<Image>, problem: Option<Problem>, at: nat)
      requires before.Valid()
      reads file.directory
    {
      var previous := before.At(file.target);
      var root := DocumentOf(toml, previous);
      && file.directory.Valid() && file.directory.Extends(earlier) && |earlier| <= at + 1 <= |file.directory.history|
      && (|| (&& root.Some? && SnapshotOf(IdentityOf(previous), root.value, expected.owned.key) == Some(expected)
              && var next := Applied(root.value, expected.owned.key, owned, preserveDecor);
              && next.Some?
              && var job := WriteJob(temporary, expected, next.value, removeFile);
              && (!externalWriter ==> WroteUndisturbed(job, before, earlier, at))
              && job.AllUndisturbed(file.directory.history, at, file.directory.history[at])
              && (problem.None? ==>
                    && file.directory.history[at].IdentityAt(file.target) == expected.identity
                    && job.Intended(file.directory.image)
                    && temporary !in file.directory.image.entries
                    && file.directory.durable == |file.directory.history| - 1)
              && (problem == Some(ConfigurationWriteFailed) ==>
                    file.directory.image.At(file.target) == file.directory.history[at].At(file.target)))
          || (problem.Some? && file.directory.image == before && file.directory.history == earlier))
    }

    ghost predicate WroteUndisturbed(job: Job, before: Image, earlier: seq<Image>, at: nat)
      requires before.Valid()
      reads file.directory
    {
      && at < |file.directory.history| && 0 < |earlier|
      && file.directory.history[at].Valid()
      && file.directory.history[at].At(file.target) == before.At(file.target)
      && job.AllUndisturbed(file.directory.history, |earlier| - 1, file.directory.history[at])
    }

    lemma WroteExtends(temporary: string, expected: Snapshot, owned: Owned, removeFile: bool, preserveDecor: bool,
                       externalWriter: bool, before: Image, earlier: seq<Image>, problem: Option<Problem>, at: nat)
      requires before.Valid()
      requires Wrote(temporary, expected, owned, removeFile, preserveDecor, externalWriter, before, earlier, problem, at)
      ensures file.directory.Valid() && file.directory.Extends(earlier)
      ensures problem.None? ==>
                temporary !in file.directory.image.entries && file.directory.durable == |file.directory.history| - 1
      ensures !IsSnapshotOf(toml, expected, before.At(file.target))
              || Applied(DocumentOf(toml, before.At(file.target)).value, expected.owned.key, owned, preserveDecor).None? ==>
                problem.Some? && file.directory.image == before && file.directory.history == earlier
    {
      hide SnapshotOf, Applied;
    }

    /** `write_owned`. */
    method WriteOwned(temporary: string, expected: Snapshot, owned: Owned, removeFile: bool, preserveDecor: bool,
                      externalWriter: bool)
      returns (problem: Option<Problem>, ghost at: nat)
      requires file.directory.Valid() && temporary != file.target
      modifies file.directory
      ensures Wrote(temporary, expected, owned, removeFile, preserveDecor, externalWriter,
                    old(file.directory.image), old(file.directory.history), problem, at)
      ensures file.directory.calls.Scripted() && file.directory.calls.AllWork(READING) && !externalWriter
              && temporary !in old(file.directory.image).entries && old(Readable(Current(), expected.owned.key))
              && old(SnapshotOf(IdentityOf(Current()), DocumentOf(toml, Current()).value, expected.owned.key)) == Some(expected)
              ==> problem == if old(Applied(DocumentOf(toml, Current()).value, expected.owned.key, owned, preserveDecor)).None?
                             then Some(ConfigurationWriteFailed)
                             else ProblemOf(OutcomeOf(file.directory.calls, expected.identity.Present?,
                                                      removeFile && expected.identity.Present?))
    {
      hide Capture, Unrelated, SelectedRestore, Applied, OutcomeOf, Job.Undisturbed, Job.Intended, Job.Safe;
      at := |file.directory.history| - 1;
      var read := ReadSnapshotForKey(expected.owned.key);
      if read.Err? {
        return Some(read.problem), at;
      }
      var (current, root) := read.value;
      if current != expected {
        return Some(ConfigurationWriteFailed), at;
      }
      var document := new Document(root);
      var ok := document.ApplyOwned(expected.owned.key, owned, preserveDecor);
      if !ok {
        return Some(ConfigurationWriteFailed), at;
      }
      if externalWriter {
        file.directory.ExternalWrite(file.target);
      }
      var outcome;
      outcome, at := file.Replace(temporary, expected.identity, toml.format(document.root), removeFile, externalWriter);
      problem := ProblemOf(outcome);
    }

    /** `verify`. */
    method Verify(before: Snapshot, desired: Owned) returns (problem: Option<Problem>)
      requires file.directory.Valid()
      ensures problem.None? ==> Resembles(toml, Current(), desired, before.unrelated)
      ensures file.directory.faultless && Regular(Current()) && Resembles(toml, Current(), desired, before.unrelated)
              ==> problem.None?
    {
      hide Capture, Unrelated, SelectedRestore, SameMeaning;
      var read := ReadSnapshotForKey(desired.key);
      if read.Err? {
        return Some(read.problem);
      }
      var current := read.value.0;
      if !SameMeaning(current.owned, desired) || current.unrelated != before.unrelated {
        return Some(ConfigurationWriteFailed);
      }
      problem := None;
    }

    /** `matches_before`: owned state, unrelated part, existence and permissions. */
    method MatchesBefore(before: Snapshot) returns (matches: bool)
      requires file.directory.Valid()
      ensures matches ==> Shows(toml, Current(), before.owned, before.unrelated) && SameFileState(Current(), before.identity)
      ensures file.directory.faultless && Regular(Current())
              && Shows(toml, Current(), before.owned, before.unrelated) && SameFileState(Current(), before.identity)
              ==> matches
    {
      hide Capture, Unrelated, SelectedRestore;
      var read := ReadSnapshotForKey(before.owned.key);
      if read.Err? {
        return false;
      }
      var current := read.value.0;
      matches := current.owned == before.owned && current.unrelated == before.unrelated
                 && current.identity.Exists() == before.identity.Exists()
                 && (!current.identity.Exists() || current.identity.mode == before.identity.mode);
    }

    /**
      Under which circumstances a whole application and its reversal are guaranteed to work: the
      document leaves the desired key free and the way back open.
    */
    ghost predicate Applicable(version: Version, before: Snapshot, desired: Owned) {
      && toml.Lawful() && before.owned.key != "" && desired.key != "" && desired.Faithful() && toml.PrintableOwned(desired)
      && LeavesFree(before.unrelated, desired.key)
      && (DocumentOf(toml, version).Some? ==> WayBackOpen(DocumentOf(toml, version).value, before.owned, desired.key))
    }

    /** What `Wrote` means for an application. */
    lemma AppliedImages(temporary: string, before: Snapshot, desired: Owned, start: Image, earlier: seq<Image>,
                        problem: Option<Problem>, at: nat)
      requires start.Valid() && 0 < |earlier| && earlier[|earlier| - 1] == start
      requires Wrote(temporary, before, desired, false, true, false, start, earlier, problem, at)
      requires Applicable(start.At(file.target), before, desired) && Regular(start.At(file.target))
      ensures Recoverable(toml, start.At(file.target), before, desired)
              ==> RecoverableFrom(toml, file.directory.history, |earlier| - 1, file.target, before, desired)
      ensures problem.None? ==> Regular(Current()) && Resembles(toml, Current(), desired, before.unrelated)
    {
      hide Applied, Unrelated, Capture, SelectedRestore, Resembles, Restorable, Shows, Job.Undisturbed, Job.Intended, WayBackOpen;
      hide LeavesFree, SameMeaning;
      var history, previous := file.directory.history, start.At(file.target);
      if history == earlier && problem.Some? {
        assert history[|earlier| - 1] == start;
      } else {
        var root := DocumentOf(toml, previous).value;
        var applied := Applied(root, before.owned.key, desired, true).value;
        var job := WriteJob(temporary, before, applied, false);
        forall i | |earlier| - 1 <= i < |history|
          ensures Recoverable(toml, history[i].At(file.target), before, desired)
          ensures job.Intended(history[i]) ==> Resembles(toml, history[i].At(file.target), desired, before.unrelated)
        {
          ApplyKeepsRecoverable(toml, job, history[i], history[at], root, applied, before, desired);
        }
      }
    }

    /** A write that went through found tables for its fields, and kept the permissions of the file. */
    lemma WroteMeans(temporary: string, expected: Snapshot, owned: Owned, removeFile: bool, preserveDecor: bool,
                     externalWriter: bool, before: Image, earlier: seq<Image>, at: nat)
      requires before.Valid()
      requires Wrote(temporary, expected, owned, removeFile, preserveDecor, externalWriter, before, earlier, None, at)
      ensures var root := DocumentOf(toml, before.At(file.target));
              root.Some? && Applied(root.value, expected.owned.key, owned, preserveDecor).Some?
      ensures file.directory.Valid()
      ensures KeepsMode(before.At(file.target), Current()) && expected.identity == IdentityOf(before.At(file.target))
      ensures !removeFile ==>
                Written(Current(), toml.format(Applied(DocumentOf(toml, before.At(file.target)).value, expected.owned.key, owned, preserveDecor).value),
                        ModeOf(expected.identity))
    {
      hide SnapshotOf, Applied;
      var root := DocumentOf(toml, before.At(file.target));
      SnapshotIdentity(IdentityOf(before.At(file.target)), root.value, expected.owned.key, expected);
    }

    lemma WroteNothing(temporary: string, expected: Snapshot, owned: Owned, removeFile: bool, preserveDecor: bool,
                       externalWriter: bool, before: Image, earlier: seq<Image>, problem: Option<Problem>, at: nat)
      requires before.Valid()
      requires Wrote(temporary, expected, owned, removeFile, preserveDecor, externalWriter, before, earlier, problem, at)
      requires var root := DocumentOf(toml, before.At(file.target));
               root.None? || Applied(root.value, expected.owned.key, owned, preserveDecor).None?
      ensures file.directory.image == before && file.directory.history == earlier
    {
      hide SnapshotOf, Applied;
    }

    lemma SnapshotIdentity(identity: FileIdentity, root: Fields, key: string, snapshot: Snapshot)
      requires SnapshotOf(identity, root, key) == Some(snapshot)
      ensures snapshot.identity == identity
    {}

    /** `atomic_apply`. */
    method AtomicApply(temporary: string, before: Snapshot, desired: Owned, externalWriter: bool)
      returns (problem: Option<Problem>, ghost at: nat)
      requires file.directory.Valid() && temporary != file.target
      modifies file.directory
      ensures file.directory.Valid() && file.directory.Extends(old(file.directory.history))
      ensures problem.None? ==> Resembles(toml, Current(), desired, before.unrelated)
      ensures problem.None? ==>
                temporary !in file.directory.image.entries && file.directory.durable == |file.directory.history| - 1
      ensures !IsSnapshotOf(toml, before, old(Current()))
              || Applied(DocumentOf(toml, old(Current())).value, before.owned.key, desired, true).None? ==>
                && problem.Some? && file.directory.image == old(file.directory.image)
                && file.directory.history == old(file.directory.history)
      ensures !externalWriter && old(Applicable(Current(), before, desired)) && old(Recoverable(toml, Current(), before, desired))
              ==> RecoverableFrom(toml, file.directory.history, |old(file.directory.history)| - 1, file.target, before, desired)
      ensures problem.None? ==>
                && old(DocumentOf(toml, Current()).Some?) && old(IdentityOf(Current())) == before.identity
                && var next := old(Applied(DocumentOf(toml, Current()).value, before.owned.key, desired, true));
                   next.Some? && Written(Current(), toml.format(next.value), ModeOf(before.identity))
      ensures !externalWriter && IsStart(toml, old(Current()), before, desired)
              ==> OldOrNewFrom(|old(file.directory.history)| - 1, old(Current()), before, desired)
      ensures file.directory.faultless && !externalWriter && temporary !in old(file.directory.image).entries
              && IsStart(toml, old(Current()), before, desired)
              ==> IsNew(toml, old(Current()), Current(), before, desired)
                  || (Current() == old(Current())
                      && old(Applied(DocumentOf(toml, Current()).value, before.owned.key, desired, true)).None?)
      ensures file.directory.faultless && !externalWriter && temporary !in old(file.directory.image).entries
              && IsStart(toml, old(Current()), before, desired)
              ==> (problem.None?
                   <==> old(Applied(DocumentOf(toml, Current()).value, before.owned.key, desired, true)).Some?
                        && LeavesFree(before.unrelated, desired.key))
    {
      hide SnapshotOf, Wrote, Recoverable, Resembles, Applied, Applicable, IsStart, LeavesFree;
      ghost var start, earlier := file.directory.image, file.directory.history;
      problem, at := WriteOwned(temporary, before, desired, false, true, externalWriter);
      WroteExtends(temporary, before, desired, false, true, externalWriter, start, earlier, problem, at);
      if !externalWriter && Applicable(start.At(file.target), before, desired) && Regular(start.At(file.target)) {
        AppliedImages(temporary, before, desired, start, earlier, problem, at);
      }
      if !externalWriter && IsStart(toml, start.At(file.target), before, desired) {
        WroteOldOrNew(temporary, before, desired, start, earlier, problem, at);
      }
      RecoverableIsRegular(start.At(file.target), before, desired);
      StartParts(start.At(file.target), before, desired);
      if problem.None? {
        WroteMeans(temporary, before, desired, false, true, externalWriter, start, earlier, at);
        if IsStart(toml, start.At(file.target), before, desired) {
          WrittenResembles(toml, start.At(file.target), Current(), before, desired);
        }
        problem := Verify(before, desired);
      }
    }

    lemma StartParts(version: Version, before: Snapshot, desired: Owned)
      ensures IsStart(toml, version, before, desired) ==>
                && Readable(version, before.owned.key)
                && SnapshotOf(IdentityOf(version), DocumentOf(toml, version).value, before.owned.key) == Some(before)
    {
      hide Capture, Unrelated, SelectedRestore, Toml.Lawful;
    }

    /** Every image since `from` shows the old version or the complete application. */
    ghost predicate OldOrNewFrom(from: nat, previous: Version, before: Snapshot, desired: Owned)
      reads file.directory
    {
      && from <= |file.directory.history|
      && forall i :: from <= i < |file.directory.history| ==>
           && file.directory.history[i].Valid()
           && OldOrNew(toml, previous, file.directory.history[i].At(file.target), before, desired)
    }

    lemma WroteOldOrNew(temporary: string, before: Snapshot, desired: Owned, start: Image, earlier: seq<Image>,
                        problem: Option<Problem>, at: nat)
      requires start.Valid() && 0 < |earlier| && earlier[|earlier| - 1] == start
      requires Wrote(temporary, before, desired, false, true, false, start, earlier, problem, at)
      requires IsStart(toml, start.At(file.target), before, desired)
      ensures OldOrNewFrom(|earlier| - 1, start.At(file.target), before, desired)
    {
      hide Applied, IsStart, SnapshotOf, Job.Safe, Job.Intended;
      if file.directory.history == earlier && problem.Some? {
        assert file.directory.history[|earlier| - 1] == start;
      }
    }

    lemma RecoverableIsRegular(version: Version, before: Snapshot, desired: Owned)
      ensures Recoverable(toml, version, before, desired) ==> Regular(version)
    {}

    lemma OnlyStart(before: Snapshot, desired: Owned)
      requires file.directory.Valid()
      ensures Recoverable(toml, Current(), before, desired)
              ==> RecoverableFrom(toml, file.directory.history, |file.directory.history| - 1, file.target, before, desired)
    {
      hide Recoverable;
    }

    /** What `Wrote` means for a restoration of a state that can be restored. */
    lemma RestoredImages(temporary: string, before: Snapshot, desired: Owned, current: Snapshot, removeFile: bool,
                         start: Image, earlier: seq<Image>, problem: Option<Problem>, at: nat)
      requires start.Valid() && 0 < |earlier| && earlier[|earlier| - 1] == start && current.owned.key == desired.key
      requires Wrote(temporary, current, before.owned, removeFile, false, false, start, earlier, problem, at)
      requires removeFile == before.identity.Missing? && toml.Lawful() && before.owned.key != "" && desired.key != ""
      requires Genuine(toml, before) && Regular(start.At(file.target)) && Restorable(toml, start.At(file.target), before, desired)
      ensures RecoverableFrom(toml, file.directory.history, |earlier| - 1, file.target, before, desired)
      ensures problem.None?
              ==> Regular(Current()) && Shows(toml, Current(), before.owned, before.unrelated)
                  && SameFileState(Current(), before.identity)
    {
      hide Applied, Unrelated, Capture, SelectedRestore, Resembles, Shows, Job.Undisturbed, Job.Intended, Genuine;
      hide Strip, SameMeaning;
      var history, previous := file.directory.history, start.At(file.target);
      if history == earlier && problem.Some? {
        assert history[|earlier| - 1] == start;
      } else {
        var root := DocumentOf(toml, previous).value;
        var restored := Applied(root, desired.key, before.owned, false).value;
        var job := WriteJob(temporary, current, restored, removeFile);
        forall i | |earlier| - 1 <= i < |history|
          ensures Recoverable(toml, history[i].At(file.target), before, desired)
          ensures job.Intended(history[i]) ==>
                    && Shows(toml, history[i].At(file.target), before.owned, before.unrelated)
                    && SameFileState(history[i].At(file.target), before.identity)
        {
          RestoreKeepsRecoverable(toml, job, history[i], history[at], root, restored, before, desired);
        }
      }
    }

    ghost predicate CanRestore(version: Version, before: Snapshot, desired: Owned) {
      && toml.Lawful() && before.owned.key != "" && desired.key != ""
      && Genuine(toml, before) && Regular(version) && Restorable(toml, version, before, desired)
    }

    /** `restore`. */
    method Restore(temporary: string, before: Snapshot, expected: Owned, externalWriter: bool)
      returns (problem: Option<Problem>, ghost at: nat)
      requires file.directory.Valid() && temporary != file.target
      modifies file.directory
      ensures file.directory.Valid() && file.directory.Extends(old(file.directory.history))
      ensures problem.None? ==>
                && old(DocumentOf(toml, Current())).Some?
                && Shows(toml, Current(), before.owned, Unrelated(old(DocumentOf(toml, Current())).value, expected.key))
                && temporary !in file.directory.image.entries && file.directory.durable == |file.directory.history| - 1
      ensures !externalWriter && old(CanRestore(Current(), before, expected))
              ==> RecoverableFrom(toml, file.directory.history, |old(file.directory.history)| - 1, file.target, before, expected)
      ensures problem.None? ==>
                && old(Applied(DocumentOf(toml, Current()).value, expected.key, before.owned, false)).Some?
                && KeepsMode(old(Current()), Current())
      ensures !Rewritable(toml, old(Current()), before, expected)
              ==> file.directory.image == old(file.directory.image) && file.directory.history == old(file.directory.history)
      ensures file.directory.faultless && !externalWriter && temporary !in old(file.directory.image).entries
              && old(CanRestore(Current(), before, expected))
              ==> problem.None? && Regular(Current()) && SameFileState(Current(), before.identity)
    {
      hide Wrote, Recoverable, Capture, Unrelated, Genuine, Applied, SelectedRestore, SameMeaning, FaithfulFields;
      at := |file.directory.history| - 1;
      ghost var start, earlier := file.directory.image, file.directory.history;
      OnlyStart(before, expected);
      if CanRestore(start.At(file.target), before, expected) {
        CanRestoreIsRecoverable(start.At(file.target), before, expected);
        GenuineParts(toml, before);
      }
      var read := ReadSnapshotForKey(expected.key);
      if read.Err? {
        return Some(read.problem), at;
      }
      var current := read.value.0;
      if !SameMeaning(current.owned, expected) {
        return Some(RecoveryRequiredProblem), at;
      }
      var removeFile := before.identity.Missing? && current.unrelated == map[];
      problem, at := WriteOwned(temporary, current, before.owned, removeFile, false, externalWriter);
      WroteExtends(temporary, current, before.owned, removeFile, false, externalWriter, start, earlier, problem, at);
      if !Rewritable(toml, start.At(file.target), before, expected) {
        WroteNothing(temporary, current, before.owned, removeFile, false, externalWriter, start, earlier, problem, at);
      }
      if !externalWriter && CanRestore(start.At(file.target), before, expected) {
        RestoredImages(temporary, before, expected, current, removeFile, start, earlier, problem, at);
      }
      if problem.Some? {
        return problem, at;
      }
      WroteMeans(temporary, current, before.owned, removeFile, false, externalWriter, start, earlier, at);
      read := ReadSnapshotForKey(before.owned.key);
      if read.Err? {
        return Some(read.problem), at;
      }
      var restored := read.value.0;
      if restored.owned != before.owned || restored.unrelated != current.unrelated {
        return Some(RecoveryRequiredProblem), at;
      }
    }

    lemma CanRestoreIsRecoverable(version: Version, before: Snapshot, desired: Owned)
      requires CanRestore(version, before, desired)
      ensures Recoverable(toml, version, before, desired)
    {
      hide Restorable, Shows;
    }

    /** The two states can be told apart and written: what every reconciliation below takes for granted. */
    ghost predicate Settleable(before: Snapshot, desired: Owned) {
      toml.Lawful() && before.owned.key != "" && desired.key != "" && Genuine(toml, before)
    }

    /** What `reconcile_one` does to the file, and the state it will put on record. */
    method SettleFile(temporary: string, before: Snapshot, desired: Owned, pathMatches: bool, externalWriter: bool)
      returns (verdict: RecoveryState)
      requires file.directory.Valid() && temporary != file.target
      modifies file.directory
      ensures file.directory.Valid() && file.directory.Extends(old(file.directory.history))
      ensures verdict != Pending
      ensures verdict.RolledBack? ==> Shows(toml, Current(), before.owned, before.unrelated)
      ensures !pathMatches || file.directory.calls.AllFail?
              ==> verdict.NeedsRecovery? && file.directory.image == old(file.directory.image)
      ensures !externalWriter && Settleable(before, desired) && old(Recoverable(toml, Current(), before, desired))
              ==> RecoverableFrom(toml, file.directory.history, |old(file.directory.history)| - 1, file.target, before, desired)
      ensures verdict.RolledBack? && Settleable(before, desired) ==> old(Recoverable(toml, Current(), before, desired))
      ensures || Shows(toml, old(Current()), before.owned, before.unrelated)
              || !Resembles(toml, old(Current()), desired, before.unrelated) || !Rewritable(toml, old(Current()), before, desired)
              ==> file.directory.image == old(file.directory.image) && file.directory.history == old(file.directory.history)
      ensures file.directory.faultless && pathMatches && !externalWriter && temporary !in old(file.directory.image).entries
              && Settleable(before, desired) && old(Recoverable(toml, Current(), before, desired))
              ==> verdict.RolledBack?
    {
      hide Capture, Unrelated, Genuine, SelectedRestore, SameMeaning, Applied, Toml.Lawful;
      OnlyStart(before, desired);
      ghost var start := Current();
      if DocumentOf(toml, start).Some? {
        CollisionAtAnyKey(DocumentOf(toml, start).value, before.owned.key, desired.key);
      }
      if !pathMatches {
        return NeedsRecovery;
      }
      var read := ReadSnapshotForKey(before.owned.key);
      if read.Err? {
        return NeedsRecovery;
      }
      var atBefore := read.value.0;
      if atBefore.owned == before.owned && atBefore.unrelated == before.unrelated {
        return RolledBack;
      }
      read := ReadSnapshotForKey(desired.key);
      if read.Err? {
        return NeedsRecovery;
      }
      var atDesired := read.value.0;
      if SameMeaning(atDesired.owned, desired) && atDesired.unrelated == before.unrelated {
        ghost var at;
        var problem;
        problem, at := Restore(temporary, before, desired, externalWriter);
        if problem.None? {
          var matches := MatchesBefore(before);
          if matches {
            if Settleable(before, desired) {
              RestoredWasRestorable(start, before, desired);
            }
            return RolledBack;
          }
        }
      }
      verdict := NeedsRecovery;
    }

    lemma RestoredWasRestorable(start: Version, before: Snapshot, desired: Owned)
      requires file.directory.Valid() && Settleable(before, desired) && Regular(start)
      requires Resembles(toml, start, desired, before.unrelated) && !Shows(toml, start, before.owned, before.unrelated)
      requires Applied(DocumentOf(toml, start).value, desired.key, before.owned, false).Some?
      requires KeepsMode(start, Current()) && SameFileState(Current(), before.identity)
      ensures Recoverable(toml, start, before, desired)
    {
      hide Applied, Genuine, Capture, Unrelated, SameMeaning;
      GenuineParts(toml, before);
      EmptyDocument(before.owned.key);
    }

    /**
      `reconcile_one`: see the Claude codec; here the two states may use different provider keys. An
      undisturbed reconciliation rolls back exactly what is recoverable.
    */
    method ReconcileOne(temporary: string, intent: Intent<Snapshot, Owned>, pathMatches: bool, store: Calls, externalWriter: bool)
      returns (ok: bool)
      requires file.directory.Valid() && temporary != file.target
      modifies file.directory, intent
      ensures file.directory.Valid() && file.directory.Extends(old(file.directory.history))
      ensures intent.state == RolledBack && old(intent.state) != RolledBack
              ==> Shows(toml, Current(), intent.before.owned, intent.before.unrelated)
      ensures ok ==> intent.state == RolledBack
      ensures !pathMatches || file.directory.calls.AllFail? ==>
                && !ok && file.directory.image == old(file.directory.image)
                && (store.NoneFails? ==> intent.state == NeedsRecovery)
      ensures !externalWriter && Settleable(intent.before, intent.desired)
              && old(Recoverable(toml, Current(), intent.before, intent.desired))
              ==> RecoverableFrom(toml, file.directory.history, |old(file.directory.history)| - 1, file.target,
                                  intent.before, intent.desired)
      ensures intent.state == RolledBack && old(intent.state) != RolledBack && Settleable(intent.before, intent.desired)
              ==> old(Recoverable(toml, Current(), intent.before, intent.desired))
      ensures || Shows(toml, old(Current()), intent.before.owned, intent.before.unrelated)
              || !Resembles(toml, old(Current()), intent.desired, intent.before.unrelated)
              || !Rewritable(toml, old(Current()), intent.before, intent.desired)
              ==> file.directory.image == old(file.directory.image) && file.directory.history == old(file.directory.history)
      ensures file.directory.faultless && store.NoneFails? && pathMatches && !externalWriter
              && temporary !in old(file.directory.image).entries && Settleable(intent.before, intent.desired)
              ==> (ok <==> old(Recoverable(toml, Current(), intent.before, intent.desired)))
    {
      hide Shows, Recoverable, Settleable, Resembles, Rewritable;
      var verdict := SettleFile(temporary, intent.before, intent.desired, pathMatches, externalWriter);
      var recorded := intent.Record(verdict, store);
      ok := verdict.RolledBack? && recorded;
    }
  }
}
