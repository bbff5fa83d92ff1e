/** When a restore union can be taken back, read off the document before it. */
module CodexUnionReturn {
  import opened Bytes
  import opened CodexDocument
  import opened CodexApply
  import opened CodexToml
  import opened CodexTrees
  import opened CodexLaws
  import opened CodexOverride
  import opened CodexReturn
  import opened CodexRestoreUnion

  predicate HasFields(restore: ProviderRestore) { restore.Present? && restore.fields != map[] }

  /**
    Nothing inline is left where provider fields have to go back: those of `before`, unless the union
    has just set the fields of the same provider, and those that the desired provider had of its own,
    unless the desired state has made tables for it.
  */
  predicate UnionWayOpen(root: Fields, before: Owned, desired: Owned, restore: ProviderRestore) {
    var item := Lookup(root, PROVIDERS);
    && (|| before.fields == map[] || HasFields(restore)
        || (!InlineProviders(item, before.key, desired.key) && !InlineProvider(item, before.key)))
    && (|| FieldsOf(Unrelated(root, before.key), desired.key) == map[] || desired.fields != map[]
        || (!InlineProviders(item, before.key, desired.key) && !InlineProvider(item, desired.key)))
  }

  /** The serialiser takes every field that the desired provider had of its own. */
  predicate Writable(toml: Toml, unrelated: TreeFields, key: string) {
    forall f <- FieldsOf(unrelated, key) :: toml.write(FieldsOf(unrelated, key)[f]).Some?
  }

  /** The providers item after putting a provider back. */
  lemma RestoredProviders(root: Fields, restore: ProviderRestore, r: Fields)
    requires Restored(root, restore) == Some(r) && FaithfulRestore(restore)
    ensures var item := Lookup(root, PROVIDERS);
            if HasFields(restore) then SetIn(item, restore.key, Lookup(r, PROVIDERS))
            else Lookup(r, PROVIDERS) == DropItem(ClearItem(item, restore.key))
  {
    hide SetProvider, Clear, DropEmpty, SetIn, ClearItem, DropItem, FaithfulFields;
    if HasFields(restore) {
      SetSets(root, restore.key, restore.fields, false, r);
    } else {
      ClearSeen(root, restore.key);
      DropSeen(Clear(root, restore.key));
    }
  }

  // ---- one provider's item under the edits

  /** What stands under `key` in the providers item. */
  function ItemAt(item: Option<Item>, key: string): Option<Item> {
    match ItemFields(item)
    case None => None
    case Some(fields) => Lookup(fields, key)
  }

  /** What clearing makes of a provider's own item. */
  function Emptied(item: Option<Item>): Option<Item> {
    match ItemFields(item)
    case None => item
    case Some(fields) => if fields - FIELDS == map[] then None else Some(item.value.(fields := fields - FIELDS))
  }

  predicate InlineItem(item: Option<Item>) { item.Some? && item.value.Inline? }

  lemma EmptiedTwice(item: Option<Item>)
    ensures Emptied(Emptied(item)) == Emptied(item)
  {
    if ItemFields(item).Some? {
      var rest := ItemFields(item).value - FIELDS;
      assert rest - FIELDS == rest;
    }
  }

  /** Clearing one provider, seen from any provider. */
  lemma ClearAt(item: Option<Item>, key: string, k: string)
    ensures ItemAt(ClearItem(item, key), k) == if k == key then Emptied(ItemAt(item, k)) else ItemAt(item, k)
    ensures ClearItem(item, key).Some? <==> item.Some?
    ensures TableOf(ClearItem(item, key)).Some? <==> TableOf(item).Some?
    ensures InlineItem(ClearItem(item, key)) <==> InlineItem(item)
  {
    hide FIELDS;
  }

  lemma DropAt(item: Option<Item>, k: string)
    ensures ItemAt(DropItem(item), k) == ItemAt(item, k)
    ensures TableOf(item).Some? ==> TableOf(DropItem(item)).Some?
  {}

  lemma SetAt(item: Option<Item>, key: string, after: Option<Item>, k: string)
    requires SetIn(item, key, after)
    ensures TableOf(item).Some? && TableOf(after).Some? && after.Some?
    ensures if k == key then ItemAt(after, k).Some? && ItemAt(after, k).value.Table? else ItemAt(after, k) == ItemAt(item, k)
  {
    if k != key {
      assert Lookup(after.value.fields, k) == Lookup(after.value.fields - {key}, k);
      assert Lookup(TableOf(item).value, k) == Lookup(TableOf(item).value - {key}, k);
    }
  }

  predicate TableOrAbsent(item: Option<Item>) { item.Some? ==> item.value.Table? }

  lemma OpenAt(item: Option<Item>, key: string)
    ensures Open(item, key) <==> TableOf(item).Some? && TableOrAbsent(ItemAt(item, key))
  {}

  /** A step of the kind every edit is: fields set under `key`, or cleared and empty tables dropped. */
  ghost predicate Stepped(item: Option<Item>, key: string, sets: bool, after: Option<Item>) {
    if sets then SetIn(item, key, after) else after == DropItem(ClearItem(item, key))
  }

  lemma SteppedAt(item: Option<Item>, key: string, sets: bool, after: Option<Item>, k: string)
    requires Stepped(item, key, sets, after)
    ensures k != key ==> ItemAt(after, k) == ItemAt(item, k)
    ensures k == key && !sets ==> ItemAt(after, k) == Emptied(ItemAt(item, k))
    ensures k == key && sets ==> ItemAt(after, k).Some? && ItemAt(after, k).value.Table?
    ensures sets || TableOf(item).Some? ==> TableOf(after).Some?
    ensures sets ==> TableOf(item).Some?
  {
    hide SetIn, DropItem, ClearItem, Emptied, TableOf;
    if sets {
      SetAt(item, key, after, k);
    } else {
      ClearAt(item, key, k);
      DropAt(ClearItem(item, key), k);
    }
  }

  /** The provider of `before` finds its place open again. */
  lemma BeforeOpen(item: Option<Item>, b: string, d: string, setsDesired: bool, applied: Option<Item>, setsBefore: bool, union: Option<Item>)
    requires b != d && Stepped(ClearItem(item, b), d, setsDesired, applied) && Stepped(applied, b, setsBefore, union)
    requires StandsAsTable(item, b)
    ensures Open(ClearItem(union, d), b) <==> setsBefore || (!InlineProviders(item, b, d) && !InlineProvider(item, b))
  {
    hide SetIn, DropItem, ClearItem, Emptied, TableOf, InlineProviders, InlineProvider, Stepped, Open, FIELDS;
    ClearAt(item, b, b);
    ClearAt(union, d, b);
    OpenAt(ClearItem(union, d), b);
    SteppedAt(ClearItem(item, b), d, setsDesired, applied, b);
    SteppedAt(applied, b, setsBefore, union, b);
    EmptiedTwice(ItemAt(item, b));
    if !setsBefore {
      InlineProviderAt(item, b);
      TablesLeft(item, b, d, setsDesired, applied, union);
    }
  }

  /** The providers item and the provider are table-like. */
  predicate StandsAsTable(item: Option<Item>, key: string) {
    ItemFields(item).Some? && Inner(ItemFields(item).value, key).Some?
  }

  lemma InlineProviderAt(item: Option<Item>, key: string)
    requires StandsAsTable(item, key)
    ensures InlineProvider(item, key) <==> !TableOrAbsent(Emptied(ItemAt(item, key)))
  {
    hide FIELDS;
  }

  /** Clearing both providers leaves real tables, or nothing, exactly when nothing inline is left. */
  lemma TablesLeft(item: Option<Item>, b: string, d: string, setsDesired: bool, applied: Option<Item>, union: Option<Item>)
    requires ItemFields(item).Some? && Stepped(ClearItem(item, b), d, setsDesired, applied) && Stepped(applied, b, false, union)
    ensures TableOf(union).Some? <==> !InlineProviders(item, b, d)
    ensures TableOf(DropItem(ClearItem(ClearItem(union, d), b))).Some? <==> !InlineProviders(item, b, d)
  {
    hide ClearProvider, FIELDS;
    if item.value.Inline? {
      ClearedBothStay(item.value.fields, b, d);
    } else {
      SteppedAt(ClearItem(item, b), d, setsDesired, applied, b);
      SteppedAt(applied, b, false, union, b);
    }
  }

  lemma ClearedBothStay(providers: Fields, b: string, d: string)
    ensures var both := ClearProvider(ClearProvider(providers, b), d);
            ClearProvider(both, b) == both && ClearProvider(both, d) == both
  {
    hide FIELDS;
    var both := ClearProvider(ClearProvider(providers, b), d);
    if Inner(both, b).Some? && Inner(providers, b).Some? {
      var rest := Inner(providers, b).value - FIELDS;
      assert rest - FIELDS == rest;
      assert both[b].fields == rest || b == d;
    }
    ClearClearedProvider(ClearProvider(providers, b), d);
    ClearClearedProvider(providers, b);
  }

  /** An edit that made tables in an inline one cannot have been. */
  lemma SetMeansTables(item: Option<Item>, b: string, d: string, setsDesired: bool, applied: Option<Item>)
    requires ItemFields(item).Some? && Stepped(ClearItem(item, b), d, setsDesired, applied)
    ensures setsDesired || TableOf(applied).Some? ==> !InlineProviders(item, b, d)
  {
    hide ClearProvider, FIELDS;
  }

  /** The desired provider finds its place open again once `before` is back. */
  lemma DesiredOpen(item: Option<Item>, b: string, d: string, setsDesired: bool, applied: Option<Item>, setsBefore: bool,
                    union: Option<Item>, setsBack: bool, back: Option<Item>)
    requires b != d && Stepped(ClearItem(item, b), d, setsDesired, applied) && Stepped(applied, b, setsBefore, union)
    requires Stepped(ClearItem(union, d), b, setsBack, back) && StandsAsTable(item, d)
    ensures Open(back, d) <==> setsDesired || (!InlineProviders(item, b, d) && !InlineProvider(item, d))
  {
    hide SetIn, DropItem, ClearItem, Emptied, TableOf, InlineProviders, InlineProvider, Open, FIELDS;
    ClearAt(item, b, d);
    ClearAt(union, d, d);
    OpenAt(back, d);
    SteppedAt(ClearItem(item, b), d, setsDesired, applied, d);
    SteppedAt(applied, b, setsBefore, union, d);
    SteppedAt(ClearItem(union, d), b, setsBack, back, d);
    EmptiedTwice(ItemAt(item, d));
    InlineProviderAt(item, d);
    EmptiedTable(ItemAt(applied, d));
    SetMeansTables(item, b, d, setsDesired, applied);
    if !setsBefore {
      TablesLeft(item, b, d, setsDesired, applied, union);
    }
  }

  lemma EmptiedTable(item: Option<Item>)
    ensures item.Some? && item.value.Table? ==> TableOrAbsent(Emptied(item))
  {}

  // ---- the theorem

  /** The edits of a union, seen from the providers item. */
  lemma UnionSteps(start: Fields, before: Owned, desired: Owned, restore: ProviderRestore, applied: Fields, root: Fields)
    requires restore.key == before.key != desired.key && before.key != "" && desired.key != ""
    requires desired.Faithful() && FaithfulRestore(restore)
    requires Applied(start, before.key, desired, false) == Some(applied) && Restored(applied, restore) == Some(root)
    ensures Stepped(ClearItem(Lookup(start, PROVIDERS), before.key), desired.key, desired.fields != map[], Lookup(applied, PROVIDERS))
    ensures Stepped(Lookup(applied, PROVIDERS), before.key, HasFields(restore), Lookup(root, PROVIDERS))
  {
    hide Applied, Restored, SetIn, DropItem, ClearItem, FaithfulFields, FIELDS, Clear;
    AppliedProviders(start, before.key, desired, false, applied);
    ClearSeen(start, before.key);
    RestoredProviders(applied, restore, root);
  }

  /** Fields of the desired provider in the unrelated part come from a table-like item. */
  lemma OwnFieldsAreThere(start: Fields, key: string, other: string)
    requires key != other && FieldsOf(Unrelated(start, key), other) != map[]
    ensures StandsAsTable(Lookup(start, PROVIDERS), other)
  {
    hide FIELDS, Meaning, MeaningOf, Strip, Unrelated, FieldsOf, Rest;
    RestUnrelated(start, key);
    StripKeepsOthers(Rest(start), key, other);
    RestKeepsProviders(start, other);
    if Provider(start, other).None? {
      NoProviderNoFields(start, other);
    }
  }

  /**
    A union that went through can be taken back exactly when nothing inline was left where provider
    fields have to go back, and the serialiser takes those of the desired provider.
  */
  lemma UnionReturnsIff(toml: Toml, start: Fields, before: Owned, desired: Owned, restore: ProviderRestore, root: Fields)
    requires toml.Writes() && Capture(start, before.key) == Some(before)
    requires restore.key == before.key != desired.key && before.key != "" && desired.key != ""
    requires desired.Faithful() && FaithfulRestore(restore) && Union(start, before.key, desired, restore) == Some(root)
    ensures WayBack(toml, root, before, Unrelated(start, before.key), desired.key).Some?
            <==> UnionWayOpen(start, before, desired, restore) && Writable(toml, Unrelated(start, before.key), desired.key)
  {
    hide Applied, Restored, Stepped, ClearItem, InlineProviders, InlineProvider, FaithfulFields, CaptureFields, Open;
    hide FIELDS, Meaning, Unrelated, FieldsOf, Clear, PriorProvider, Toml.Writes, Toml.PrintableRestore, TableOf;
    var u, b, d := Unrelated(start, before.key), before.key, desired.key;
    var applied := Applied(start, b, desired, false).value;
    UnionSteps(start, before, desired, restore, applied, root);
    var item, p, q := Lookup(start, PROVIDERS), Lookup(applied, PROVIDERS), Lookup(root, PROVIDERS);
    AppliedIffOpen(root, d, before, false);
    ClearSeen(root, d);
    if before.fields != map[] {
      CapturedTables(start, b);
      BeforeOpen(item, b, d, desired.fields != map[], p, HasFields(restore), q);
    }
    if Applied(root, d, before, false).Some? && PriorProvider(toml, u, d).Some? {
      var back, prior := Applied(root, d, before, false).value, PriorProvider(toml, u, d).value;
      PriorFaithful(toml, u, d, prior);
      RestoredIffOpen(back, prior);
      if FieldsOf(u, d) != map[] {
        OwnFieldsAreThere(start, b, d);
        BackSteps(root, d, before, back);
        DesiredOpen(item, b, d, desired.fields != map[], p, HasFields(restore), q, before.fields != map[], Lookup(back, PROVIDERS));
      }
      NoFieldsNoSemantics(prior);
    }
  }

  lemma BackSteps(root: Fields, desiredKey: string, before: Owned, back: Fields)
    requires Applied(root, desiredKey, before, false) == Some(back) && before.Faithful()
    requires before.key != desiredKey && before.key != "" && desiredKey != ""
    ensures Stepped(ClearItem(Lookup(root, PROVIDERS), desiredKey), before.key, before.fields != map[], Lookup(back, PROVIDERS))
  {
    hide Applied, SetIn, DropItem, ClearItem, FaithfulFields, FIELDS, Clear;
    AppliedProviders(root, desiredKey, before, false, back);
    ClearSeen(root, desiredKey);
  }

  lemma NoFieldsNoSemantics(restore: ProviderRestore)
    ensures SemanticsOf(if restore.Present? then restore.fields else map[]) == map[] <==> !HasFields(restore)
  {
    if HasFields(restore) {
      assert SemanticsOf(restore.fields).Keys == restore.fields.Keys;
    }
  }
}
