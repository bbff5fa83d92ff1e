/** The lens laws of the Codex document: what an application writes, and what it leaves alone. */
module CodexLaws {
  import opened Bytes
  import opened CodexDocument
  import opened CodexApply
  import opened CodexTrees

  function SemanticsOf(fields: OwnedFields): TreeFields { map f | f in fields :: fields[f].semantic }

  function Semantic(item: Option<OwnedItem>): Option<Tree> {
    if item.Some? then Some(item.value.semantic) else None
  }

  /** `owned_semantically_matches`. */
  predicate SameMeaning(a: Owned, b: Owned) {
    && a.key == b.key && Semantic(a.model) == Semantic(b.model) && Semantic(a.selector) == Semantic(b.selector)
    && SemanticsOf(a.fields) == SemanticsOf(b.fields)
  }

  /** The document without its two top-level owned keys, by meaning. */
  function Rest(root: Fields): TreeFields { MeaningOf(root) - {MODEL, SELECTOR} }

  // ---- one provider

  /** What a provider table holds after its fields were replaced. */
  ghost predicate Holds(replaced: Fields, provider: Fields, fields: OwnedFields, preserveDecor: bool) {
    && (forall f :: f !in FIELDS ==> Lookup(replaced, f) == Lookup(provider, f))
    && (forall f <- FIELDS :: f in replaced <==> f in fields)
    && (forall f <- FIELDS :: f in fields ==>
          replaced[f].IsValue() && Meaning(replaced[f]) == fields[f].semantic
          && (!preserveDecor ==> ItemText(Some(replaced[f])) == Some(fields[f])))
  }

  lemma ReplacedHolds(provider: Fields, fields: OwnedFields, preserveDecor: bool)
    requires FaithfulFields(fields)
    ensures Replaced(provider, fields, preserveDecor).Some?
    ensures Holds(Replaced(provider, fields, preserveDecor).value, provider, fields, preserveDecor)
  {
    hide Placed, ItemText, Meaning;
    forall f | f in FIELDS && f in fields
      ensures Placed(fields[f], Lookup(provider, f), preserveDecor).Some?
      ensures var item := Placed(fields[f], Lookup(provider, f), preserveDecor).value;
              && item.IsValue() && Meaning(item) == fields[f].semantic
              && (!preserveDecor ==> ItemText(Some(item)) == Some(fields[f]))
    {
      PlacedMeans(fields[f], Lookup(provider, f), preserveDecor);
    }
  }

  /** The tables a successful `SetProvider` wrote. */
  lemma SetProviderIs(root: Fields, key: string, fields: OwnedFields, preserveDecor: bool, r: Fields)
    returns (providers: Fields, provider: Fields, replaced: Fields)
    requires SetProvider(root, key, fields, preserveDecor) == Some(r) && FaithfulFields(fields)
    ensures TableAt(root, PROVIDERS) == Some(providers) && TableAt(providers, key) == Some(provider)
    ensures r == root[PROVIDERS := Table(providers[key := Table(replaced)])]
    ensures Holds(replaced, provider, fields, preserveDecor)
  {
    hide Replaced, Holds;
    providers := TableAt(root, PROVIDERS).value;
    provider := TableAt(providers, key).value;
    replaced := Replaced(provider, fields, preserveDecor).value;
    ReplacedHolds(provider, fields, preserveDecor);
  }

  /** What was set is what is captured. */
  lemma CaptureAfterSet(root: Fields, key: string, fields: OwnedFields, preserveDecor: bool, r: Fields)
    requires SetProvider(root, key, fields, preserveDecor) == Some(r)
    requires FaithfulFields(fields) && fields.Keys <= FIELDS
    ensures SemanticsOf(CaptureFields(r, key)) == SemanticsOf(fields)
    ensures !preserveDecor ==> CaptureFields(r, key) == fields
    ensures FieldsOf(MeaningOf(r), key) == SemanticsOf(fields)
  {
    hide SetProvider, Meaning, FIELDS;
    var providers, provider, replaced := SetProviderIs(root, key, fields, preserveDecor, r);
    assert Provider(r, key) == Some(replaced);
    CapturedFrom(r, key, replaced, provider, fields, preserveDecor);
    FieldsOfProvider(r, key, replaced);
    var captured := FieldsOf(MeaningOf(r), key);
    forall f ensures Lookup(captured, f) == Lookup(SemanticsOf(fields), f) {}
    SameLookups(captured, SemanticsOf(fields));
  }

  lemma CapturedFrom(r: Fields, key: string, replaced: Fields, provider: Fields, fields: OwnedFields, preserveDecor: bool)
    requires Provider(r, key) == Some(replaced) && Holds(replaced, provider, fields, preserveDecor) && fields.Keys <= FIELDS
    ensures SemanticsOf(CaptureFields(r, key)) == SemanticsOf(fields)
    ensures !preserveDecor ==> CaptureFields(r, key) == fields
  {
    hide Meaning, FIELDS, Provider;
    var captured := CaptureFields(r, key);
    forall f ensures Lookup(SemanticsOf(captured), f) == Lookup(SemanticsOf(fields), f) {}
    SameLookups(SemanticsOf(captured), SemanticsOf(fields));
    if !preserveDecor {
      forall f ensures Lookup(captured, f) == Lookup(fields, f) {}
      SameLookups(captured, fields);
    }
  }

  /** The owned fields of a provider, read off its table. */
  lemma FieldsOfProvider(root: Fields, key: string, provider: Fields)
    requires Provider(root, key) == Some(provider)
    ensures FieldsOf(MeaningOf(root), key) == map f | f in FIELDS && f in provider :: Meaning(provider[f])
  {
    hide Meaning, FIELDS;
    MeaningInner(root, PROVIDERS);
    MeaningInner(Inner(root, PROVIDERS).value, key);
  }

  lemma NoProviderNoFields(root: Fields, key: string)
    requires Provider(root, key).None?
    ensures FieldsOf(MeaningOf(root), key) == map[] && CaptureFields(root, key) == map[]
  {
    hide Meaning, MeaningOf, FIELDS;
    MeaningInner(root, PROVIDERS);
    if Inner(root, PROVIDERS).Some? {
      MeaningInner(Inner(root, PROVIDERS).value, key);
    }
  }

  /** Replacing a provider's owned fields does not show when that provider is stripped. */
  lemma StripAfterTreeSet(tree: TreeFields, providers: TreeFields, key: string, before: TreeFields, now: TreeFields)
    requires if PROVIDERS in tree then tree[PROVIDERS] == Node(providers) else providers == map[]
    requires if key in providers then providers[key] == Node(before) else before == map[]
    requires before - FIELDS == now - FIELDS
    ensures Strip(tree[PROVIDERS := Node(providers[key := Node(now)])], key) == Strip(tree, key)
  {
    hide FIELDS;
    var after := providers[key := Node(now)];
    assert ClearProviderTree(after, key) == ClearProviderTree(providers, key) by {
      var left, right := ClearProviderTree(after, key), ClearProviderTree(providers, key);
      forall k ensures Lookup(left, k) == Lookup(right, k) {}
      SameLookups(left, right);
    }
    if PROVIDERS !in tree {
      assert tree[PROVIDERS := Node(map[])] - {PROVIDERS} == tree;
    }
  }

  lemma StripAfterSet(root: Fields, key: string, fields: OwnedFields, preserveDecor: bool, r: Fields)
    requires SetProvider(root, key, fields, preserveDecor) == Some(r) && FaithfulFields(fields)
    ensures Strip(Rest(r), key) == Strip(Rest(root), key)
  {
    hide SetProvider, Meaning, FIELDS, Strip;
    var providers, provider, replaced := SetProviderIs(root, key, fields, preserveDecor, r);
    var tree, ps := MeaningOf(root), MeaningOf(providers);
    var before, now := MeaningOf(provider), MeaningOf(replaced);
    TableMeaning(root, PROVIDERS, providers);
    TableMeaning(providers, key, provider);
    assert before - FIELDS == now - FIELDS by {
      forall f ensures Lookup(before - FIELDS, f) == Lookup(now - FIELDS, f) {
        assert f !in FIELDS ==> Lookup(replaced, f) == Lookup(provider, f);
      }
      SameLookups(before - FIELDS, now - FIELDS);
    }
    assert MeaningOf(r) == tree[PROVIDERS := Node(ps[key := Node(now)])] by {
      UpdatedMeaning(providers, key, replaced);
      UpdatedMeaning(root, PROVIDERS, providers[key := Table(replaced)]);
    }
    StripAfterTreeSet(tree, ps, key, before, now);
    ClearWithout(MeaningOf(r), key, {MODEL, SELECTOR});
    ClearWithout(tree, key, {MODEL, SELECTOR});
  }

  lemma TableMeaning(fields: Fields, key: string, inner: Fields)
    requires TableAt(fields, key) == Some(inner)
    ensures if key in MeaningOf(fields) then MeaningOf(fields)[key] == Node(MeaningOf(inner)) else MeaningOf(inner) == map[]
  {
    if key in fields {
      assert Meaning(fields[key]) == Node(MeaningOf(inner));
    }
  }

  lemma UpdatedMeaning(fields: Fields, key: string, inner: Fields)
    ensures MeaningOf(fields[key := Table(inner)]) == MeaningOf(fields)[key := Node(MeaningOf(inner))]
  {
    assert Meaning(Table(inner)) == Node(MeaningOf(inner));
  }

  // ---- clearing and dropping

  lemma StripAfterClear(root: Fields, key: string)
    ensures Strip(Rest(Clear(root, key)), key) == Strip(Rest(root), key)
    ensures Rest(Clear(root, key)) == ClearTree(Rest(root), key)
  {
    hide Meaning, MeaningOf, Clear, ClearTree, DropTree;
    MeaningOfClear(root, key);
    ClearWithout(MeaningOf(root), key, {MODEL, SELECTOR});
    StripCleared(Rest(root), key);
  }

  lemma StripAfterDrop(root: Fields, key: string)
    ensures Strip(Rest(DropEmpty(root)), key) == Strip(Rest(root), key)
    ensures Rest(DropEmpty(root)) == DropTree(Rest(root))
  {
    hide Meaning, MeaningOf, DropEmpty, ClearTree, DropTree;
    MeaningOfDrop(root);
    ClearWithout(MeaningOf(root), key, {MODEL, SELECTOR});
    StripDropped(Rest(root), key);
  }

  lemma CaptureAfterClear(root: Fields, key: string)
    ensures CaptureFields(Clear(root, key), key) == map[] && FieldsOf(MeaningOf(Clear(root, key)), key) == map[]
  {
    hide Meaning, MeaningOf, FIELDS;
    var cleared := Clear(root, key);
    if Provider(cleared, key).None? {
      NoProviderNoFields(cleared, key);
    } else {
      var provider := Provider(cleared, key).value;
      assert provider == Provider(root, key).value - FIELDS;
      FieldsOfProvider(cleared, key, provider);
    }
  }

  /** Editing one provider does not show in another. */
  lemma OtherProvider(root: Fields, r: Fields, key: string)
    requires Provider(r, key) == Provider(root, key)
    ensures CaptureFields(r, key) == CaptureFields(root, key)
    ensures FieldsOf(MeaningOf(r), key) == FieldsOf(MeaningOf(root), key)
  {
    hide Meaning, MeaningOf, FIELDS;
    if Provider(r, key).None? {
      NoProviderNoFields(r, key);
      NoProviderNoFields(root, key);
    } else {
      FieldsOfProvider(r, key, Provider(r, key).value);
      FieldsOfProvider(root, key, Provider(r, key).value);
    }
  }

  lemma ClearKeepsOthers(root: Fields, key: string, other: string)
    requires key != other
    ensures Provider(Clear(root, key), other) == Provider(root, other)
  {}

  lemma DropKeepsProviders(root: Fields, other: string)
    ensures Provider(DropEmpty(root), other) == Provider(root, other)
  {}

  lemma SetKeepsOthers(root: Fields, key: string, fields: OwnedFields, preserveDecor: bool, r: Fields, other: string)
    requires SetProvider(root, key, fields, preserveDecor) == Some(r) && key != other
    ensures Provider(r, other) == Provider(root, other)
  {
    hide Replaced;
  }

  // ---- an application, step by step

  /** The top-level keys after the two `set_top_level` calls; everything else as before. */
  ghost predicate TopSet(cleared: Fields, selected: Fields, owned: Owned, preserveDecor: bool) {
    && (forall k :: k != MODEL && k != SELECTOR ==> Lookup(selected, k) == Lookup(cleared, k))
    && TopHolds(Lookup(selected, MODEL), owned.model, preserveDecor)
    && TopHolds(Lookup(selected, SELECTOR), owned.selector, preserveDecor)
  }

  ghost predicate TopHolds(item: Option<Item>, encoded: Option<OwnedItem>, preserveDecor: bool) {
    && (item.Some? <==> encoded.Some?)
    && (item.Some? ==>
          item.value.IsValue() && Semantic(ItemText(item)) == Semantic(encoded)
          && (!preserveDecor ==> ItemText(item) == encoded))
  }

  lemma SetTopHolds(root: Fields, key: string, encoded: Option<OwnedItem>, preserveDecor: bool)
    requires encoded.Some? ==> encoded.value.Faithful()
    ensures SetTop(root, key, encoded, preserveDecor).Some?
    ensures var r := SetTop(root, key, encoded, preserveDecor).value;
            && (forall k :: k != key ==> Lookup(r, k) == Lookup(root, k))
            && TopHolds(Lookup(r, key), encoded, preserveDecor)
  {
    hide Placed, Meaning;
    if encoded.Some? {
      PlacedMeans(encoded.value, Lookup(root, key), preserveDecor);
    }
  }

  /** The document before the provider edit, given back by name. */
  ghost function Cleared(root: Fields, current: string, owned: Owned): Fields {
    if current != owned.key && current != "" then Clear(root, current) else root
  }

  lemma AppliedSteps(root: Fields, current: string, owned: Owned, preserveDecor: bool, r: Fields)
    returns (selected: Fields, done: Fields)
    requires Applied(root, current, owned, preserveDecor) == Some(r) && owned.Faithful() && owned.key != ""
    ensures TopSet(Cleared(root, current, owned), selected, owned, preserveDecor)
    ensures if owned.fields != map[] then SetProvider(selected, owned.key, owned.fields, preserveDecor) == Some(done)
            else done == Clear(selected, owned.key)
    ensures r == DropEmpty(done)
  {
    hide SetTop, SetProvider, Clear, DropEmpty;
    var cleared := Cleared(root, current, owned);
    var modelled := SetTop(cleared, MODEL, owned.model, preserveDecor).value;
    selected := SetTop(modelled, SELECTOR, owned.selector, preserveDecor).value;
    SetTopHolds(cleared, MODEL, owned.model, preserveDecor);
    SetTopHolds(modelled, SELECTOR, owned.selector, preserveDecor);
    done := if owned.fields != map[] then SetProvider(selected, owned.key, owned.fields, preserveDecor).value
            else Clear(selected, owned.key);
  }

  lemma TopSetRest(cleared: Fields, selected: Fields, owned: Owned, preserveDecor: bool)
    requires TopSet(cleared, selected, owned, preserveDecor)
    ensures Rest(selected) == Rest(cleared)
    ensures forall key :: Provider(selected, key) == Provider(cleared, key)
  {
    hide Meaning;
    forall k ensures Lookup(Rest(selected), k) == Lookup(Rest(cleared), k) {
      if k != MODEL && k != SELECTOR {
        assert Lookup(selected, k) == Lookup(cleared, k);
      }
    }
    SameLookups(Rest(selected), Rest(cleared));
    assert Lookup(selected, PROVIDERS) == Lookup(cleared, PROVIDERS);
  }

  // ---- the laws

  /** A provider edit does not touch the top-level keys. */
  lemma ProviderEditKeepsTop(root: Fields, key: string, fields: OwnedFields, preserveDecor: bool, done: Fields, top: string)
    requires top != PROVIDERS
    requires SetProvider(root, key, fields, preserveDecor) == Some(done) || done == Clear(root, key)
    ensures Lookup(DropEmpty(done), top) == Lookup(root, top)
  {
    hide Replaced;
  }

  /**
    Capturing under the applied key gives back what was applied: the same meaning, and the same
    text unless the decor of the old values was kept.
  */
  lemma CaptureAfterApply(root: Fields, current: string, owned: Owned, preserveDecor: bool, r: Fields)
    requires Applied(root, current, owned, preserveDecor) == Some(r) && owned.Faithful() && owned.key != ""
    ensures Capture(r, owned.key).Some? && SameMeaning(Capture(r, owned.key).value, owned)
    ensures !preserveDecor ==> Capture(r, owned.key) == Some(owned)
  {
    hide Applied, SetProvider, Clear, DropEmpty, CaptureFields, FIELDS;
    var selected, done := AppliedSteps(root, current, owned, preserveDecor, r);
    if owned.fields != map[] {
      CaptureAfterSet(selected, owned.key, owned.fields, preserveDecor, done);
    } else {
      CaptureAfterClear(selected, owned.key);
    }
    DropKeepsProviders(done, owned.key);
    OtherProvider(done, r, owned.key);
    ProviderEditKeepsTop(selected, owned.key, owned.fields, preserveDecor, done, MODEL);
    ProviderEditKeepsTop(selected, owned.key, owned.fields, preserveDecor, done, SELECTOR);
  }

  /** Stripped of the applied provider, the document reads as it did after the old provider was cleared. */
  lemma StripAfterApply(root: Fields, current: string, owned: Owned, preserveDecor: bool, r: Fields)
    requires Applied(root, current, owned, preserveDecor) == Some(r) && owned.Faithful() && owned.key != ""
    ensures Strip(Rest(r), owned.key) == Strip(Rest(Cleared(root, current, owned)), owned.key)
  {
    hide Applied, SetProvider, Clear, DropEmpty, Strip, Rest, Cleared;
    var selected, done := AppliedSteps(root, current, owned, preserveDecor, r);
    TopSetRest(Cleared(root, current, owned), selected, owned, preserveDecor);
    if owned.fields != map[] {
      StripAfterSet(selected, owned.key, owned.fields, preserveDecor, done);
    } else {
      StripAfterClear(selected, owned.key);
    }
    StripAfterDrop(done, owned.key);
  }

  /** Under one provider key, applying leaves the unrelated projection alone. */
  lemma UnrelatedAfterApply(root: Fields, owned: Owned, preserveDecor: bool, r: Fields)
    requires Applied(root, owned.key, owned, preserveDecor) == Some(r) && owned.Faithful() && owned.key != ""
    ensures Unrelated(r, owned.key) == Unrelated(root, owned.key)
  {
    hide Applied, Strip, Unrelated;
    StripAfterApply(root, owned.key, owned, preserveDecor, r);
    UnrelatedIsStrip(r, owned.key);
    UnrelatedIsStrip(root, owned.key);
  }

  /** From one key to another, it leaves alone what neither provider's owned fields are part of. */
  lemma UnrelatedAcrossKeys(root: Fields, current: string, owned: Owned, preserveDecor: bool, r: Fields)
    requires Applied(root, current, owned, preserveDecor) == Some(r) && owned.Faithful() && owned.key != ""
    ensures Strip(Unrelated(r, owned.key), current) == Strip(Unrelated(root, current), owned.key)
  {
    hide Applied, Strip, Unrelated, Clear, ClearTree, Rest;
    StripAfterApply(root, current, owned, preserveDecor, r);
    UnrelatedIsStrip(r, owned.key);
    UnrelatedIsStrip(root, current);
    RestUnrelated(r, owned.key);
    RestUnrelated(root, current);
    if current != owned.key && current != "" {
      StripAfterClear(root, current);
      StripThroughClear(Rest(root), owned.key, current);
    }
    StripsCommute(Rest(root), owned.key, current);
  }

  lemma RestUnrelated(root: Fields, key: string)
    ensures Unrelated(root, key) == Strip(Rest(root), key)
  {
    hide Strip, Unrelated, MeaningOf;
    UnrelatedIsStrip(root, key);
  }
}
