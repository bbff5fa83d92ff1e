/**
  When the way back is open. Setting the fields of a provider needs real tables to put them in; an
  inline table that an application leaves behind is in the way of the state before. The conditions
  here can be read off the document before the application.
*/
module CodexReturn {
  import opened Bytes
  import opened CodexDocument
  import opened CodexApply
  import opened CodexLaws
  import opened CodexOverride

  /** Fields can be set under `key`: its table and the one above it are tables, or yet to be made. */
  predicate Open(item: Option<Item>, key: string) { TableOf(item).Some? && TableAt(TableOf(item).value, key).Some? }

  /** An application goes through exactly when it has no fields to set, or tables to set them in. */
  lemma AppliedIffOpen(root: Fields, current: string, owned: Owned, preserveDecor: bool)
    requires owned.Faithful() && owned.key != ""
    ensures Applied(root, current, owned, preserveDecor).Some?
            <==> owned.fields == map[] || Open(Lookup(Cleared(root, current, owned), PROVIDERS), owned.key)
  {
    hide Replaced, Clear, DropEmpty, FIELDS, FaithfulFields, SetTop;
    var cleared := Cleared(root, current, owned);
    SetTopHolds(cleared, MODEL, owned.model, preserveDecor);
    var modelled := SetTop(cleared, MODEL, owned.model, preserveDecor).value;
    SetTopHolds(modelled, SELECTOR, owned.selector, preserveDecor);
    var selected := SetTop(modelled, SELECTOR, owned.selector, preserveDecor).value;
    assert Lookup(selected, PROVIDERS) == Lookup(cleared, PROVIDERS);
    if Open(Lookup(selected, PROVIDERS), owned.key) {
      var provider := TableAt(TableOf(Lookup(selected, PROVIDERS)).value, owned.key).value;
      ReplacedHolds(provider, owned.fields, preserveDecor);
    }
  }

  /** The same for putting a provider back. */
  lemma RestoredIffOpen(root: Fields, restore: ProviderRestore)
    requires restore.Present? ==> FaithfulFields(restore.fields)
    ensures Restored(root, restore).Some?
            <==> !restore.Unrepresentable?
                 && (restore.Present? && restore.fields != map[] ==> Open(Lookup(root, PROVIDERS), restore.key))
  {
    hide Replaced, Clear, DropEmpty, FaithfulFields;
    if restore.Present? && Open(Lookup(root, PROVIDERS), restore.key) {
      var provider := TableAt(TableOf(Lookup(root, PROVIDERS)).value, restore.key).value;
      ReplacedHolds(provider, restore.fields, false);
    }
  }

  /** The providers item after setting fields of one provider: tables, with everything else as it was. */
  ghost predicate SetIn(item: Option<Item>, key: string, after: Option<Item>) {
    && Open(item, key) && after.Some? && after.value.Table?
    && key in after.value.fields && after.value.fields[key].Table?
    && after.value.fields - {key} == TableOf(item).value - {key}
  }

  /** The providers item after an application. */
  lemma AppliedProviders(root: Fields, current: string, owned: Owned, preserveDecor: bool, r: Fields)
    requires Applied(root, current, owned, preserveDecor) == Some(r) && owned.Faithful() && owned.key != ""
    ensures var item := Lookup(Cleared(root, current, owned), PROVIDERS);
            if owned.fields == map[] then Lookup(r, PROVIDERS) == DropItem(ClearItem(item, owned.key))
            else SetIn(item, owned.key, Lookup(r, PROVIDERS))
  {
    hide Applied, SetProvider, Clear, DropEmpty, FIELDS, FaithfulFields, ClearItem, DropItem;
    var selected, done := AppliedSteps(root, current, owned, preserveDecor, r);
    assert Lookup(selected, PROVIDERS) == Lookup(Cleared(root, current, owned), PROVIDERS);
    DropSeen(done);
    if owned.fields == map[] {
      ClearSeen(selected, owned.key);
    } else {
      SetSets(selected, owned.key, owned.fields, preserveDecor, done);
      SetInStays(Lookup(selected, PROVIDERS), owned.key, Lookup(done, PROVIDERS));
    }
  }

  lemma SetSets(root: Fields, key: string, fields: OwnedFields, preserveDecor: bool, done: Fields)
    requires SetProvider(root, key, fields, preserveDecor) == Some(done) && FaithfulFields(fields)
    ensures SetIn(Lookup(root, PROVIDERS), key, Lookup(done, PROVIDERS))
  {
    hide SetProvider, Holds, FaithfulFields;
    assert Open(Lookup(root, PROVIDERS), key) by {
      var _, _, _ := SetProviderIs(root, key, fields, preserveDecor, done);
    }
    var providers, provider, replaced := SetProviderIs(root, key, fields, preserveDecor, done);
    assert providers[key := Table(replaced)] - {key} == providers - {key};
  }

  lemma SetInStays(item: Option<Item>, key: string, after: Option<Item>)
    requires SetIn(item, key, after)
    ensures DropItem(after) == after
  {}

  // ---- what is left standing

  /** What the two clearings leave of the providers is left in an inline table. */
  predicate InlineProviders(item: Option<Item>, one: string, other: string) {
    && item.Some? && item.value.Inline?
    && ClearProvider(ClearProvider(item.value.fields, one), other) != map[]
  }

  /** The provider is an inline table with fields besides the owned ones. */
  predicate InlineProvider(item: Option<Item>, key: string) {
    && ItemFields(item).Some? && key in ItemFields(item).value && ItemFields(item).value[key].Inline?
    && ItemFields(item).value[key].fields - FIELDS != map[]
  }

  /** Nothing inline is left where the fields of `before` have to go once `desiredKey` gives way again. */
  predicate WayBackOpen(root: Fields, before: Owned, desiredKey: string) {
    before.fields == map[]
    || (!InlineProviders(Lookup(root, PROVIDERS), before.key, desiredKey) && !InlineProvider(Lookup(root, PROVIDERS), before.key))
  }

  /** Captured fields come from table-like items. */
  lemma CapturedTables(root: Fields, key: string)
    requires CaptureFields(root, key) != map[]
    ensures ItemFields(Lookup(root, PROVIDERS)).Some?
    ensures Inner(ItemFields(Lookup(root, PROVIDERS)).value, key).Some?
  {
    hide FIELDS, Meaning;
  }

  /** Clearing seen from one provider's item. */
  lemma ClearedProvider(providers: Fields, key: string)
    requires Inner(providers, key).Some?
    ensures var rest := Inner(providers, key).value - FIELDS; var cleared := ClearProvider(providers, key);
            && (key in cleared <==> rest != map[])
            && (key in cleared ==> cleared[key] == providers[key].(fields := rest))
            && cleared - {key} == providers - {key}
  {
    hide FIELDS;
  }

  lemma ClearedElsewhere(providers: Fields, key: string)
    ensures ClearProvider(providers, key) - {key} == providers - {key}
    ensures forall k :: k != key ==> Lookup(ClearProvider(providers, key), k) == Lookup(providers, k)
  {
    hide FIELDS;
  }

  /**
    From one key to another: after the application the fields of the state before can be set again
    exactly when nothing inline is left in their place.
  */
  lemma OpenAcrossKeys(item: Option<Item>, before: Owned, desired: Owned, after: Option<Item>)
    requires before.key != desired.key
    requires ItemFields(item).Some? && Inner(ItemFields(item).value, before.key).Some?
    requires var cleared := ClearItem(item, before.key);
             if desired.fields == map[] then after == DropItem(ClearItem(cleared, desired.key))
             else SetIn(cleared, desired.key, after)
    ensures Open(ClearItem(after, desired.key), before.key)
            <==> !InlineProviders(item, before.key, desired.key) && !InlineProvider(item, before.key)
  {
    hide FIELDS, ClearProvider;
    var providers := ItemFields(item).value;
    var cleared := ClearProvider(providers, before.key);
    var both := ClearProvider(cleared, desired.key);
    ClearedProvider(providers, before.key);
    ClearedElsewhere(cleared, desired.key);
    assert Lookup(both, before.key) == Lookup(cleared, before.key);
    if desired.fields == map[] {
      ClearedElsewhere(both, desired.key);
    } else {
      assert item.value.Table?;
      var now := after.value.fields;
      ClearedElsewhere(now, desired.key);
      assert Lookup(now, before.key) == Lookup(now - {desired.key}, before.key);
      assert Lookup(cleared, before.key) == Lookup(cleared - {desired.key}, before.key);
    }
  }

  /** Under one key. */
  lemma OpenUnderOneKey(item: Option<Item>, before: Owned, desired: Owned, after: Option<Item>)
    requires before.key == desired.key
    requires ItemFields(item).Some? && Inner(ItemFields(item).value, before.key).Some?
    requires if desired.fields == map[] then after == DropItem(ClearItem(item, desired.key))
             else SetIn(item, desired.key, after)
    ensures Open(after, before.key)
            <==> !InlineProviders(item, before.key, desired.key) && !InlineProvider(item, before.key)
  {
    hide FIELDS, ClearProvider;
    var providers := ItemFields(item).value;
    var cleared := ClearProvider(providers, before.key);
    ClearedProvider(providers, before.key);
    if desired.fields == map[] {
      ClearClearedProvider(providers, before.key);
    } else {
      assert item.value.Table?;
    }
  }

  /**
    An application that went through can be taken back exactly when nothing inline is left in the
    place of the provider fields from before.
  */
  lemma ReturnsIff(root: Fields, before: Owned, desired: Owned, r: Fields)
    requires Capture(root, before.key) == Some(before) && before.key != "" && desired.key != "" && desired.Faithful()
    requires Applied(root, before.key, desired, true) == Some(r)
    ensures Applied(r, desired.key, before, false).Some? <==> WayBackOpen(root, before, desired.key)
  {
    hide Applied, Clear, ClearItem, DropItem, SetIn, InlineProviders, InlineProvider, FaithfulFields, CaptureFields, Open;
    hide FIELDS, Meaning;
    AppliedIffOpen(r, desired.key, before, false);
    if before.fields != map[] {
      var item, after := Lookup(root, PROVIDERS), Lookup(r, PROVIDERS);
      CapturedTables(root, before.key);
      AppliedProviders(root, before.key, desired, true, r);
      ClearSeen(root, before.key);
      ClearSeen(r, desired.key);
      if before.key == desired.key {
        OpenUnderOneKey(item, before, desired, after);
      } else {
        OpenAcrossKeys(item, before, desired, after);
      }
    }
  }
}
