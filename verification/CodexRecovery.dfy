/**
  Crashes and recovery of the Codex configuration file: the story of the Claude codec, across two
  provider keys, and exactly which applications it can undo.
*/
module CodexRecovery {
  import opened Bytes
  import opened Directories
  import opened ManagedFiles
  import opened Intents
  import opened Recoveries
  import opened CodexDocument
  import opened CodexApply
  import opened CodexToml
  import opened CodexTrees
  import opened CodexLaws
  import opened CodexOverride
  import opened CodexReturn
  import opened CodexRestoreUnion
  import opened CodexCodec

  // ---- which applications can be undone

  /** After an application under another key, the first provider has no owned fields. */
  lemma FieldsGone(root: Fields, key: string, desired: Owned, r: Fields)
    requires Applied(root, key, desired, true) == Some(r) && desired.Faithful()
    requires key != desired.key && key != "" && desired.key != ""
    ensures CaptureFields(r, key) == map[]
  {
    hide Applied, Clear, SetProvider, DropEmpty, CaptureFields, FaithfulFields, Provider;
    var selected, done := AppliedSteps(root, key, desired, true, r);
    CaptureAfterClear(root, key);
    TopSetRest(Clear(root, key), selected, desired, true);
    if desired.fields != map[] {
      SetKeepsOthers(selected, desired.key, desired.fields, true, done, key);
    } else {
      ClearKeepsOthers(selected, desired.key, key);
    }
    DropKeepsProviders(done, key);
    OtherProvider(Clear(root, key), r, key);
  }

  /** Where an application shows the state before after all, nothing stands in the way. */
  lemma UnchangedIsOpen(root: Fields, before: Owned, desired: Owned, r: Fields)
    requires Applied(root, before.key, desired, true) == Some(r) && desired.Faithful() && before.key != "" && desired.key != ""
    requires Capture(r, before.key) == Some(before)
    ensures WayBackOpen(root, before, desired.key)
  {
    hide Applied, SetIn, ClearItem, DropItem, FIELDS, FaithfulFields, CaptureFields;
    if before.key != desired.key {
      FieldsGone(root, before.key, desired, r);
    } else if before.fields != map[] {
      CaptureAfterApply(root, before.key, desired, true, r);
      NoFieldsEitherWay(before.fields, desired.fields);
      AppliedProviders(root, before.key, desired, true, r);
      SetIsNotInline(Lookup(root, PROVIDERS), before.key, desired.key, Lookup(r, PROVIDERS));
    }
  }

  lemma NoFieldsEitherWay(a: OwnedFields, b: OwnedFields)
    requires SemanticsOf(a) == SemanticsOf(b)
    ensures a == map[] <==> b == map[]
  {
    assert SemanticsOf(a).Keys == a.Keys && SemanticsOf(b).Keys == b.Keys;
  }

  lemma SetIsNotInline(item: Option<Item>, key: string, other: string, after: Option<Item>)
    requires SetIn(item, key, after)
    ensures !InlineProviders(item, key, other) && !InlineProvider(item, key)
  {}

  /** Under one key, a desired state with provider fields only ever goes where it can be undone. */
  lemma SameKeyReturns(root: Fields, before: Owned, desired: Owned, r: Fields)
    requires before.key == desired.key != "" && desired.fields != map[] && desired.Faithful()
    requires Applied(root, before.key, desired, true) == Some(r)
    ensures WayBackOpen(root, before, desired.key) && LeavesFree(Unrelated(root, before.key), desired.key)
  {
    hide Applied, SetIn, FIELDS, FaithfulFields, Unrelated, Strip, LeavesFree, InlineProviders, InlineProvider, Rest;
    AppliedProviders(root, before.key, desired, true, r);
    SetIsNotInline(Lookup(root, PROVIDERS), before.key, desired.key, Lookup(r, PROVIDERS));
    SameKeyLeavesFree(root, before.key);
  }

  // ---- an application that changes nothing to be seen from the key before

  /** The two stored texts are the same but for the white space and comments around them. */
  predicate SameText(a: Option<OwnedItem>, b: Option<OwnedItem>) {
    && (a.Some? <==> b.Some?)
    && (a.Some? && a.value.rendered.Rendered? && b.value.rendered.Rendered? && a.value.rendered.item.IsValue()
        && b.value.rendered.item.IsValue() ==>
          b.value.rendered.item.(decor := a.value.rendered.item.decor) == a.value.rendered.item)
  }

  /**
    The desired provider already stands in the document with all its fields, the provider from before
    has none, and the top-level keys keep their texts: the application rewrites what is there.
  */
  predicate ChangesNothing(before: Owned, unrelated: TreeFields, desired: Owned) {
    && before.key != desired.key && before.fields == map[]
    && SameText(before.model, desired.model) && SameText(before.selector, desired.selector)
    && FieldsOf(unrelated, desired.key) == SemanticsOf(desired.fields) && NoEmptyProvider(unrelated, desired.key)
  }

  /** A top-level key after an application that keeps the decor. */
  lemma TopAfterApply(root: Fields, current: string, owned: Owned, r: Fields)
    requires Applied(root, current, owned, true) == Some(r) && owned.Faithful() && owned.key != ""
    ensures Lookup(r, MODEL) == if owned.model.Some? then Placed(owned.model.value, Lookup(root, MODEL), true) else None
    ensures Lookup(r, SELECTOR) == if owned.selector.Some? then Placed(owned.selector.value, Lookup(root, SELECTOR), true) else None
  {
    hide Placed, SetProvider, Clear, DropEmpty, FIELDS, FaithfulFields;
    var cleared := Cleared(root, current, owned);
    if cleared != root {
      ClearSeen(root, current);
    }
    var modelled := SetTop(cleared, MODEL, owned.model, true).value;
    var selected := SetTop(modelled, SELECTOR, owned.selector, true).value;
    var done := if owned.fields != map[] then SetProvider(selected, owned.key, owned.fields, true).value
                else Clear(selected, owned.key);
    ProviderEditKeepsTop(selected, owned.key, owned.fields, true, done, MODEL);
    ProviderEditKeepsTop(selected, owned.key, owned.fields, true, done, SELECTOR);
    assert Lookup(selected, SELECTOR) == if owned.selector.Some? then Placed(owned.selector.value, Lookup(root, SELECTOR), true) else None;
    assert Lookup(selected, MODEL) == Lookup(modelled, MODEL);
  }

  /** The text of a top-level key is the old one exactly when the two texts are the same. */
  lemma TextKept(prior: Option<Item>, owned: Option<OwnedItem>, now: Option<Item>)
    requires prior.Some? ==> prior.value.IsValue()
    requires owned.Some? ==> owned.value.Faithful()
    requires now == if owned.Some? then Placed(owned.value, prior, true) else None
    ensures ItemText(now) == ItemText(prior) <==> SameText(ItemText(prior), owned)
  {
    hide Meaning;
  }

  /** The unrelated part seen from the old key, after an application under another one. */
  lemma UnrelatedFromBefore(root: Fields, key: string, desired: Owned, r: Fields)
    requires Applied(root, key, desired, true) == Some(r) && desired.Faithful()
    requires key != desired.key && key != "" && desired.key != ""
    ensures Unrelated(r, key) == Unrelated(root, key)
            <==> FieldsOf(Unrelated(root, key), desired.key) == SemanticsOf(desired.fields)
                 && NoEmptyProvider(Unrelated(root, key), desired.key)
  {
    hide Applied, Unrelated, Strip, Rest, FieldsOf, NoEmptyProvider, DropTree, FaithfulFields, Capture;
    var d := desired.key;
    RestUnrelated(root, key);
    RestUnrelated(r, key);
    RestUnrelated(r, d);
    StripDrops(Rest(root), key);
    StripDrops(Rest(r), key);
    UnrelatedMoves(root, key, desired, true, r);
    StripsCommute(Rest(r), key, d);
    StripsCommute(Unrelated(root, key), d, key);
    StripTwice(Rest(root), key);
    StripKeepsOthers(Rest(r), key, d);
    RestKeepsProviders(r, d);
    DesiredAfterApply(root, key, desired, r);
    if FieldsOf(Unrelated(root, key), d) == SemanticsOf(desired.fields) && NoEmptyProvider(Unrelated(root, key), d) {
      assert Strip(Unrelated(r, key), d) == Strip(Unrelated(root, key), d);
      Rebuild(Unrelated(r, key), Unrelated(root, key), d);
    }
  }

  /** From another key, the file shows the state before after all exactly when the application changed nothing. */
  lemma ShowsBeforeIff(root: Fields, before: Owned, desired: Owned, r: Fields)
    requires Capture(root, before.key) == Some(before) && desired.Faithful()
    requires before.key != desired.key && before.key != "" && desired.key != ""
    requires Applied(root, before.key, desired, true) == Some(r)
    ensures Capture(r, before.key) == Some(before) && Unrelated(r, before.key) == Unrelated(root, before.key)
            <==> ChangesNothing(before, Unrelated(root, before.key), desired)
  {
    hide Applied, Unrelated, FieldsOf, NoEmptyProvider, FaithfulFields, CaptureFields, Meaning, SameText, Placed, FIELDS, SemanticsOf;
    TopAfterApply(root, before.key, desired, r);
    TextKept(Lookup(root, MODEL), desired.model, Lookup(r, MODEL));
    TextKept(Lookup(root, SELECTOR), desired.selector, Lookup(r, SELECTOR));
    FieldsGone(root, before.key, desired, r);
    UnrelatedFromBefore(root, before.key, desired, r);
    TopsAreValues(root, before.key, desired, r);
  }

  lemma TopsAreValues(root: Fields, key: string, desired: Owned, r: Fields)
    requires Applied(root, key, desired, true) == Some(r) && desired.Faithful() && desired.key != ""
    ensures Capture(r, key).Some?
  {
    hide Applied, Meaning, FaithfulFields, CaptureFields;
    CaptureAfterApply(root, key, desired, true, r);
    CollisionAtAnyKey(r, key, desired.key);
  }

  // ---- exactly which files can be rolled back

  /**
    What a reconciliation can undo, read off the document before the application: the desired key was
    free and the way back is open, or the application changed nothing to begin with.
  */
  predicate Undoable(root: Fields, before: Owned, unrelated: TreeFields, desired: Owned) {
    || (LeavesFree(unrelated, desired.key) && WayBackOpen(root, before, desired.key))
    || ChangesNothing(before, unrelated, desired)
  }

  /** The file holding the application, checked or not, is recoverable exactly when the application is undoable. */
  lemma RecoverableIffUndoable(toml: Toml, previous: Version, version: Version, before: Snapshot, desired: Owned)
    requires IsStart(toml, previous, before, desired) && IsNew(toml, previous, version, before, desired)
    ensures Recoverable(toml, version, before, desired)
            <==> Undoable(DocumentOf(toml, previous).value, before.owned, before.unrelated, desired)
    ensures Recoverable(toml, version, before, desired) || !Resembles(toml, version, desired, before.unrelated)
            || !Rewritable(toml, version, before, desired)
  {
    hide Applied, Unrelated, SelectedRestore, LeavesFree, SameMeaning, WayBackOpen, FaithfulFields, ChangesNothing;
    hide CaptureFields, Toml.Lawful, Toml.PrintableOwned, Toml.OnLines, Meaning;
    var root := DocumentOf(toml, previous).value;
    var r := Applied(root, before.owned.key, desired, true).value;
    WrittenResembles(toml, previous, version, before, desired);
    ReturnsIff(root, before.owned, desired, r);
    WrittenIdentity(version, toml.format(r), before.identity, previous);
    if before.owned.key != desired.key {
      ShowsBeforeIff(root, before.owned, desired, r);
    } else {
      SameKeyLeavesFree(root, before.owned.key);
      OtherKeyOnly(before.owned, before.unrelated, desired);
      if Shows(toml, version, before.owned, before.unrelated) {
        UnchangedIsOpen(root, before.owned, desired, r);
      }
    }
  }

  lemma SameKeyLeavesFree(root: Fields, key: string)
    ensures LeavesFree(Unrelated(root, key), key)
  {
    hide Unrelated, Strip, LeavesFree, Rest;
    RestUnrelated(root, key);
    StrippedIsFree(Rest(root), key);
  }

  lemma OtherKeyOnly(before: Owned, unrelated: TreeFields, desired: Owned)
    ensures ChangesNothing(before, unrelated, desired) ==> before.key != desired.key
  {
    hide FieldsOf, NoEmptyProvider, SameText;
  }

  /**
    Such a file, over the document of `TakenKeyIsRefused`: the application can be written, and once it
    is, nothing rolls it back.
  */
  lemma TakenKeyIsLost(toml: Toml)
    returns (previous: Version, version: Version, before: Snapshot, desired: Owned, r: Fields)
    requires toml.Lawful() && toml.Printable(TakenDocument()) && toml.PrintableOwned(NamedProvider())
    ensures IsStart(toml, previous, before, desired) && IsNew(toml, previous, version, before, desired)
    ensures !Recoverable(toml, version, before, desired)
    ensures DocumentOf(toml, previous) == Some(TakenDocument()) && DocumentOf(toml, version) == Some(r)
    ensures FieldsOf(MeaningOf(TakenDocument()), "x") == map["name" := Leaf(Text("m"))]
    ensures FieldsOf(MeaningOf(r), "x") == map["name" := Leaf(Text("n"))]
  {
    hide Applied, Unrelated, Meaning, MeaningOf, FieldsOf, Toml.Lawful, Toml.PrintableOwned, Recoverable, Undoable, IsStart;
    hide IsNew, Capture, Resembles, LeavesFree, NamedProvider, TakenDocument;
    desired, r := TakenKeyIsRefused();
    previous, before := TakenStart(toml);
    version := Some((InodeId(0, 1), Inode(true, 0, NEW_FILE_MODE, toml.format(r))));
    TakenIsNew(toml, previous, version, before, r);
    RecoverableIffUndoable(toml, previous, version, before, desired);
    NewIsRead(toml, previous, version, before, desired);
    TakenNotUndoable(before.owned, before.unrelated);
    TakenFields(TakenDocument());
  }

  /** A written application is read back. */
  lemma NewIsRead(toml: Toml, previous: Version, version: Version, before: Snapshot, desired: Owned)
    requires IsStart(toml, previous, before, desired) && IsNew(toml, previous, version, before, desired)
    ensures DocumentOf(toml, previous).Some?
    ensures DocumentOf(toml, version) == Applied(DocumentOf(toml, previous).value, before.owned.key, desired, true)
  {
    hide Applied, Resembles, LeavesFree, Toml.Lawful, Toml.PrintableOwned;
    WrittenResembles(toml, previous, version, before, desired);
  }

  lemma TakenIsNew(toml: Toml, previous: Version, version: Version, before: Snapshot, r: Fields)
    requires DocumentOf(toml, previous) == Some(TakenDocument()) && before.owned.key == "b"
    requires Applied(TakenDocument(), "b", NamedProvider(), true) == Some(r) && before.identity.Present? && before.identity.mode == NEW_FILE_MODE
    requires version.Some? && version.value.1 == Inode(true, 0, NEW_FILE_MODE, toml.format(r))
    ensures IsNew(toml, previous, version, before, NamedProvider())
    ensures Applied(DocumentOf(toml, previous).value, before.owned.key, NamedProvider(), true) == Some(r)
  {
    hide Applied;
  }

  /** A file with that document. */
  lemma TakenStart(toml: Toml) returns (previous: Version, before: Snapshot)
    requires toml.Lawful() && toml.Printable(TakenDocument()) && toml.PrintableOwned(NamedProvider())
    ensures DocumentOf(toml, previous) == Some(TakenDocument()) && IsStart(toml, previous, before, NamedProvider())
    ensures before.identity.Present? && before.identity.mode == NEW_FILE_MODE && before.owned.key == "b"
    ensures before.unrelated == Unrelated(TakenDocument(), "b")
  {
    hide Applied, Unrelated, Meaning, MeaningOf, Toml.Printable, Toml.PrintableOwned;
    var root := TakenDocument();
    previous := Some((InodeId(0, 0), Inode(true, 0, NEW_FILE_MODE, toml.format(root))));
    before := SnapshotOf(IdentityOf(previous), root, "b").value;
    assert Provider(root, "b").None?;
    NamedProviderFaithful();
  }

  lemma TakenNotUndoable(before: Owned, unrelated: TreeFields)
    requires FieldsOf(unrelated, "x") == map["name" := Leaf(Text("m"))]
    ensures !Undoable(TakenDocument(), before, unrelated, NamedProvider())
  {
    hide FieldsOf, WayBackOpen, SameText, NoEmptyProvider;
    var fields := FieldsOf(unrelated, "x");
    assert "name" in fields;
    NameIsSet();
    assert SemanticsOf(NamedProvider().fields)["name"] != fields["name"];
  }

  lemma NameIsSet()
    ensures SemanticsOf(NamedProvider().fields) == map["name" := Leaf(Text("n"))]
  {}

  lemma TakenFields(root: Fields)
    requires root == TakenDocument()
    ensures FieldsOf(MeaningOf(root), "x") == FieldsOf(Unrelated(root, "b"), "x")
  {
    hide Unrelated, Meaning, MeaningOf, FieldsOf, Strip, Rest;
    RestUnrelated(root, "b");
    StripKeepsOthers(Rest(root), "b", "x");
    RestKeepsProviders(root, "x");
  }

  lemma WrittenIdentity(version: Version, bytes: Octets, identity: FileIdentity, previous: Version)
    requires identity == IdentityOf(previous) && Written(version, bytes, ModeOf(identity))
    ensures ModeOf(IdentityOf(version)) == ModeOf(identity) && version.Some?
  {}

  /**
    An undisturbed application, and an undisturbed reconciliation after it, as when the process dies
    before the intent is done with. The application succeeds exactly when its tables can be made and
    the desired key is free. Whether it succeeded, was refused by its check after the write, or wrote
    nothing, the reconciliation rolls back exactly when nothing was written or the application is
    undoable; otherwise it leaves the file as the application left it.
  */
  method ApplyThenReconcile(codec: CodexConfigCodec, intent: Intent<Snapshot, Owned>, first: string, second: string)
    returns (applied: bool, found: Image, ok: bool, left: Image)
    requires codec.file.directory.Valid() && codec.file.directory.faultless
    requires first != codec.file.target && second != codec.file.target && first !in codec.file.directory.image.entries
    requires IsStart(codec.toml, codec.Current(), intent.before, intent.desired) && intent.state == Pending
    modifies codec.file.directory, intent
    ensures found.Valid() && left.Valid()
    ensures var root := old(DocumentOf(codec.toml, codec.Current()).value);
            var made := Applied(root, intent.before.owned.key, intent.desired, true).Some?;
            && (applied <==> made && LeavesFree(intent.before.unrelated, intent.desired.key))
            && (made ==> IsNew(codec.toml, old(codec.Current()), found.At(codec.file.target), intent.before, intent.desired))
            && (!made ==> found.At(codec.file.target) == old(codec.Current()))
            && (second !in found.entries ==>
                  (ok <==> !made || Undoable(root, intent.before.owned, intent.before.unrelated, intent.desired)))
            && (!ok && second !in found.entries ==> left == found)
            && (ok ==> Shows(codec.toml, left.At(codec.file.target), intent.before.owned, intent.before.unrelated))
  {
    hide Applied, IsStart, LeavesFree, Undoable, Recoverable, Resembles, Rewritable, Shows, IsNew;
    ghost var previous := codec.Current();
    var problem;
    ghost var at;
    problem, at := codec.AtomicApply(first, intent.before, intent.desired, false);
    applied := problem.None?;
    found := codec.file.directory.image;
    IsNewMade(codec.toml, previous, codec.Current(), intent.before, intent.desired);
    if IsNew(codec.toml, previous, codec.Current(), intent.before, intent.desired) {
      RecoverableIffUndoable(codec.toml, previous, codec.Current(), intent.before, intent.desired);
    }
    StartIsGenuine(codec.toml, previous, intent.before, intent.desired);
    var restarted := Restart(found, codec.file.target, codec.toml, NoneFails);
    ok := restarted.ReconcileOne(second, intent, true, NoneFails, false);
    left := restarted.file.directory.image;
  }

  lemma IsNewMade(toml: Toml, previous: Version, version: Version, before: Snapshot, desired: Owned)
    ensures IsNew(toml, previous, version, before, desired)
            ==> DocumentOf(toml, previous).Some? && Applied(DocumentOf(toml, previous).value, before.owned.key, desired, true).Some?
  {
    hide Applied;
  }

  lemma StartIsGenuine(toml: Toml, version: Version, before: Snapshot, desired: Owned)
    requires IsStart(toml, version, before, desired)
    ensures toml.Lawful() && before.owned.key != "" && desired.key != "" && Genuine(toml, before)
    ensures Recoverable(toml, version, before, desired)
  {
    hide Capture, Unrelated, SelectedRestore, Toml.Printable, Toml.OnLines, Toml.Writes;
    toml.CapturePrintable(DocumentOf(toml, version).value, before.owned.key);
  }

  // ---- the story

  /** A process started afresh on whatever was found in the directory. */
  method Restart(found: Image, target: string, toml: Toml, calls: Calls) returns (codec: CodexConfigCodec)
    requires found.Valid()
    ensures fresh(codec) && fresh(codec.file) && fresh(codec.file.directory)
    ensures codec.file.target == target && codec.toml == toml && codec.file.directory.calls == calls
    ensures codec.file.directory.Valid() && codec.file.directory.image == found
    ensures codec.file.directory.history == [found]
  {
    var directory := new Directory(found, calls);
    var file := new ManagedFile(directory, target);
    codec := new CodexConfigCodec(file, toml);
  }

  ghost function AimsOf(toml: Toml, target: string, before: Snapshot, desired: Owned): Aims {
    Aims(target, version => Recoverable(toml, version, before, desired),
         version => Shows(toml, version, before.owned, before.unrelated))
  }

  /** What a start does besides: it rolls back nothing that is not recoverable, and leaves alone what it cannot rewrite. */
  ghost predicate StartedExactly(toml: Toml, target: string, before: Snapshot, desired: Owned, found: Stop, left: Stop) {
    && found.image.Valid() && left.image.Valid()
    && (found.state.Pending? && left.state.RolledBack? ==> Recoverable(toml, found.image.At(target), before, desired))
    && ((!Resembles(toml, found.image.At(target), desired, before.unrelated)
         || !Rewritable(toml, found.image.At(target), before, desired)) ==> left.image == found.image)
  }

  /** One start of the program; see the Claude codec. */
  method StartUp(start: Start, found: Image, target: string, toml: Toml, intent: Intent<Snapshot, Owned>) returns (left: Image)
    requires found.Valid() && start.temporary != target
    requires toml.Lawful() && intent.before.owned.key != "" && intent.desired.key != "" && Genuine(toml, intent.before)
    modifies intent
    ensures left.Valid()
    ensures Started(AimsOf(toml, target, intent.before, intent.desired), start, Stop(found, old(intent.state)), Stop(left, intent.state))
    ensures StartedExactly(toml, target, intent.before, intent.desired, Stop(found, old(intent.state)), Stop(left, intent.state))
  {
    hide Shows, Genuine, Recoverable, Toml.Lawful, Resembles, Rewritable;
    var unlisted: bool := *;
    if !intent.state.Pending? || start.store.AllFail? || (start.store.SomeFail? && unlisted) {
      return found;
    }
    var codec := Restart(found, target, toml, start.calls);
    if start.dies {
      var _ := codec.SettleFile(start.temporary, intent.before, intent.desired, true, false);
      left := Crash(codec.file.directory, 0);
    } else {
      var _ := codec.ReconcileOne(start.temporary, intent, true, start.store, false);
      left := codec.file.directory.image;
    }
  }

  /** The starts are all of this kind. */
  ghost predicate Exactly(toml: Toml, target: string, before: Snapshot, desired: Owned, stops: seq<Stop>) {
    forall i :: 0 <= i < |stops| - 1 ==> StartedExactly(toml, target, before, desired, stops[i], stops[i + 1])
  }

  /** What can be neither recovered nor rewritten stays as it is, and no start ever records a roll-back. */
  lemma {:induction false} NeverRollsBack(toml: Toml, target: string, before: Snapshot, desired: Owned, starts: seq<Start>,
                                          stops: seq<Stop>, n: nat)
    requires Story(AimsOf(toml, target, before, desired), starts, stops) && Exactly(toml, target, before, desired, stops)
    requires n <= |starts| && stops[0].state.Pending? && stops[0].image.Valid()
    requires !Recoverable(toml, stops[0].image.At(target), before, desired)
    requires !Resembles(toml, stops[0].image.At(target), desired, before.unrelated)
             || !Rewritable(toml, stops[0].image.At(target), before, desired)
    ensures stops[n].image == stops[0].image && !stops[n].state.RolledBack?
  {
    hide Recoverable, Resembles, Rewritable;
    if n > 0 {
      NeverRollsBack(toml, target, before, desired, starts, stops, n - 1);
      assert Started(AimsOf(toml, target, before, desired), starts[n - 1], stops[n - 1], stops[n]);
      assert StartedExactly(toml, target, before, desired, stops[n - 1], stops[n]);
    }
  }

  /**
    The whole story, for any application: it dies in any of its steps, and the program is started any
    number of times after it. What the crash left is recoverable exactly when nothing was written yet
    or the application is undoable. Then the story is that of the Claude codec; otherwise no start
    ever rolls back, and the file stays as the dead application left it.
  */
  method CrashesThenRecovery(codec: CodexConfigCodec, intent: Intent<Snapshot, Owned>, temporary: string, starts: seq<Start>)
    returns (stops: seq<Stop>)
    requires codec.file.directory.Valid() && temporary != codec.file.target
    requires forall k :: 0 <= k < |starts| ==> starts[k].temporary != codec.file.target
    requires IsStart(codec.toml, codec.Current(), intent.before, intent.desired) && intent.state == Pending
    modifies codec.file.directory, intent
    ensures Story(AimsOf(codec.toml, codec.file.target, intent.before, intent.desired), starts, stops)
    ensures stops[0].state.Pending? && stops[0].image.Valid() && stops[|starts|].state == intent.state
    ensures var crashed := stops[0].image.At(codec.file.target);
            && OldOrNew(codec.toml, old(codec.Current()), crashed, intent.before, intent.desired)
            && (Recoverable(codec.toml, crashed, intent.before, intent.desired)
                <==> crashed == old(codec.Current())
                     || Undoable(old(DocumentOf(codec.toml, codec.Current()).value), intent.before.owned,
                                 intent.before.unrelated, intent.desired))
    ensures Recoverable(codec.toml, stops[0].image.At(codec.file.target), intent.before, intent.desired)
            ==> HappyEnd(codec.toml, codec.file.target, intent.before, intent.desired, starts, stops)
    ensures !Recoverable(codec.toml, stops[0].image.At(codec.file.target), intent.before, intent.desired)
            ==> forall i :: 0 <= i <= |starts| ==> stops[i].image == stops[0].image && !stops[i].state.RolledBack?
  {
    hide Shows, Recoverable, Started, Applied, Genuine, Toml.Lawful, IsStart, OldOrNew, Undoable, StartedExactly, Resembles, Rewritable;
    ghost var aims := AimsOf(codec.toml, codec.file.target, intent.before, intent.desired);
    ghost var previous := codec.Current();
    StartIsGenuine(codec.toml, previous, intent.before, intent.desired);
    var from := |codec.file.directory.history| - 1;
    var problem;
    ghost var at;
    problem, at := codec.AtomicApply(temporary, intent.before, intent.desired, false);
    var found := Crash(codec.file.directory, from);
    stops := [Stop(found, Pending)];
    for i := 0 to |starts|
      invariant |stops| == i + 1 && stops[i] == Stop(found, intent.state) && found.Valid() && stops[0].state.Pending?
      invariant stops[0].image.Valid()
      invariant OldOrNew(codec.toml, previous, stops[0].image.At(codec.file.target), intent.before, intent.desired)
      invariant forall k :: 0 <= k < i ==> Started(aims, starts[k], stops[k], stops[k + 1])
      invariant Exactly(codec.toml, codec.file.target, intent.before, intent.desired, stops)
    {
      found := StartUp(starts[i], found, codec.file.target, codec.toml, intent);
      stops := stops + [Stop(found, intent.state)];
    }
    CrashedIs(codec.toml, previous, stops[0].image.At(codec.file.target), intent.before, intent.desired);
    if aims.Recoverable(stops[0]) {
      StoryEnds(aims, starts, stops);
    } else {
      forall i | 0 <= i <= |starts| ensures stops[i].image == stops[0].image && !stops[i].state.RolledBack? {
        NeverRollsBack(codec.toml, codec.file.target, intent.before, intent.desired, starts, stops, i);
      }
    }
  }

  /** What a crash left, and whether it can be recovered or rewritten. */
  lemma CrashedIs(toml: Toml, previous: Version, crashed: Version, before: Snapshot, desired: Owned)
    requires IsStart(toml, previous, before, desired) && OldOrNew(toml, previous, crashed, before, desired)
    ensures Recoverable(toml, crashed, before, desired)
            <==> crashed == previous || Undoable(DocumentOf(toml, previous).value, before.owned, before.unrelated, desired)
    ensures Recoverable(toml, crashed, before, desired) || !Resembles(toml, crashed, desired, before.unrelated)
            || !Rewritable(toml, crashed, before, desired)
  {
    hide Recoverable, IsStart, IsNew, Undoable, Resembles, Rewritable;
    if crashed == previous {
      StartIsGenuine(toml, previous, before, desired);
    } else {
      RecoverableIffUndoable(toml, previous, crashed, before, desired);
    }
  }

  /**
    How a story goes on from a recoverable file: it stays recoverable; the first undisturbed start that
    finds the intent pending rolls back for good, as it does when every start before it died; after a
    recorded failure nothing changes any more.
  */
  ghost predicate HappyEnd(toml: Toml, target: string, before: Snapshot, desired: Owned, starts: seq<Start>, stops: seq<Stop>)
    requires |stops| == |starts| + 1
  {
    var last := stops[|starts|];
    && (forall i :: 0 <= i <= |starts| ==>
          stops[i].image.Valid() && Recoverable(toml, stops[i].image.At(target), before, desired))
    && (forall i :: 0 <= i < |starts| && starts[i].Undisturbed(stops[i].image)
                    && (stops[i].state.Pending? || forall k :: 0 <= k < i ==> starts[k].dies) ==>
          && last.state.RolledBack? && last.image.Valid()
          && Shows(toml, last.image.At(target), before.owned, before.unrelated))
    && (forall i :: 0 <= i < |starts| && stops[i].state.Pending? && starts[i].ReadsFail() ==>
          last == Stop(stops[i].image, NeedsRecovery))
  }
}
