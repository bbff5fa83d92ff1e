/**
  Moving the owned state from one provider key to another while giving the first provider back
  ("restore union"): the checks made afterwards always pass, and the way back leads to the snapshot.
*/
module CodexRestoreUnion {
  import opened Bytes
  import opened Texts
  import opened CodexDocument
  import opened CodexApply
  import opened CodexToml
  import opened CodexTrees
  import opened CodexLaws
  import opened CodexOverride
  import opened CodexReturn

  // ---- what a provider restore may hold

  predicate IsName(tree: Tree) { tree.Leaf? && tree.atom.Text? && !Blank(tree.atom.text) }

  const BEARER := "Bearer "

  predicate IsBearerHeader(tree: Tree) {
    && tree.Node? && tree.fields.Keys == {"Authorization"}
    && var value := tree.fields["Authorization"];
       && value.Leaf? && value.atom.Text?
       && BEARER <= value.atom.text && !Blank(value.atom.text[|BEARER|..])
  }

  predicate RepresentableField(field: string, tree: Tree) {
    && (field == "name" || field == "base_url" ==> IsName(tree))
    && (field == "wire_api" ==> tree == Leaf(Text("responses")))
    && (field == "supports_websockets" ==> tree == Leaf(Flag(false)))
    && (field == "http_headers" ==> IsBearerHeader(tree))
  }

  predicate Representable(fields: OwnedFields) {
    forall f <- fields :: RepresentableField(f, fields[f].semantic)
  }

  /** `capture_provider_restore_for_key`. */
  function CaptureRestore(root: Fields, key: string): ProviderRestore {
    var captured := CaptureFields(root, key);
    if captured == map[] then Absent(key)
    else if Representable(captured) && AllValues(root, key) then Present(key, captured)
    else Unrepresentable(key)
  }

  /** A provider restore that a capture can produce and an application can put back. */
  predicate Obtainable(restore: ProviderRestore) {
    match restore
    case Absent(_) => true
    case Present(_, fields) => fields != map[] && Representable(fields)
    case Unrepresentable(_) => false
  }

  /** Stored text that parses to what it claims to mean. */
  predicate FaithfulRestore(restore: ProviderRestore) {
    restore.Present? ==> FaithfulFields(restore.fields) && restore.fields.Keys <= FIELDS
  }

  // ---- the union and its checks

  /** `apply_restore_union_document`. */
  function Union(root: Fields, beforeKey: string, desired: Owned, restore: ProviderRestore): Option<Fields> {
    match Applied(root, beforeKey, desired, false)
    case None => None
    case Some(applied) => Restored(applied, restore)
  }

  /** The document part of `restore_union_matches`. */
  predicate UnionMatches(root: Fields, beforeUnrelated: TreeFields, desired: Owned, restore: ProviderRestore) {
    var captured := Capture(root, desired.key);
    && captured.Some? && SameMeaning(captured.value, desired)
    && CaptureRestore(root, restore.key) == restore
    && Strip(Unrelated(root, desired.key), restore.key) == Strip(beforeUnrelated, desired.key)
  }

  // ---- what a provider restore does to a document

  lemma RestoredOther(root: Fields, restore: ProviderRestore, r: Fields, other: string)
    requires Restored(root, restore) == Some(r) && other != restore.key
    ensures Provider(r, other) == Provider(root, other)
    ensures Lookup(r, MODEL) == Lookup(root, MODEL) && Lookup(r, SELECTOR) == Lookup(root, SELECTOR)
  {
    hide SetProvider, Clear, DropEmpty, Provider, Representable;
    if restore.Present? && restore.fields != map[] {
      SetKeepsOthers(root, restore.key, restore.fields, false, r, other);
      SetKeepsTop(root, restore.key, restore.fields, r);
    } else {
      ClearKeepsOthers(root, restore.key, other);
      DropKeepsProviders(Clear(root, restore.key), other);
      ProviderEditKeepsTop(root, restore.key, map[], false, Clear(root, restore.key), MODEL);
      ProviderEditKeepsTop(root, restore.key, map[], false, Clear(root, restore.key), SELECTOR);
    }
  }

  lemma SetKeepsTop(root: Fields, key: string, fields: OwnedFields, r: Fields)
    requires SetProvider(root, key, fields, false) == Some(r)
    ensures Lookup(r, MODEL) == Lookup(root, MODEL) && Lookup(r, SELECTOR) == Lookup(root, SELECTOR)
  {
    hide Replaced;
  }

  lemma RestoredStrip(root: Fields, restore: ProviderRestore, r: Fields)
    requires Restored(root, restore) == Some(r) && FaithfulRestore(restore)
    ensures Strip(Rest(r), restore.key) == Strip(Rest(root), restore.key)
  {
    hide SetProvider, Clear, DropEmpty, Strip, Rest;
    if restore.Present? && restore.fields != map[] {
      StripAfterSet(root, restore.key, restore.fields, false, r);
    } else {
      StripAfterClear(root, restore.key);
      StripAfterDrop(Clear(root, restore.key), restore.key);
    }
  }

  /** The owned fields of the restored provider. */
  lemma RestoredFields(root: Fields, restore: ProviderRestore, r: Fields)
    requires Restored(root, restore) == Some(r) && FaithfulRestore(restore)
    ensures var fields := if restore.Present? then restore.fields else map[];
            && CaptureFields(r, restore.key) == fields
            && FieldsOf(MeaningOf(r), restore.key) == SemanticsOf(fields)
            && (fields != map[] ==> AllValues(r, restore.key))
  {
    hide SetProvider, Clear, DropEmpty, Meaning, MeaningOf, CaptureFields, FIELDS, FieldsOf;
    if restore.Present? && restore.fields != map[] {
      CaptureAfterSet(root, restore.key, restore.fields, false, r);
      var providers, provider, replaced := SetProviderIs(root, restore.key, restore.fields, false, r);
      assert Provider(r, restore.key) == Some(replaced);
    } else {
      var cleared := Clear(root, restore.key);
      CaptureAfterClear(root, restore.key);
      DropKeepsProviders(cleared, restore.key);
      OtherProvider(cleared, r, restore.key);
    }
  }

  // ---- the checks pass

  /**
    A successful union of different keys passes the owned and unrelated checks, and the provider
    check too, exactly when the provider restore is one that a capture can produce.
  */
  lemma UnionSatisfiesChecks(root: Fields, before: Owned, desired: Owned, restore: ProviderRestore, r: Fields)
    requires Capture(root, before.key) == Some(before) && restore.key == before.key != desired.key && desired.key != ""
    requires desired.Faithful() && FaithfulRestore(restore)
    requires Union(root, before.key, desired, restore) == Some(r)
    ensures UnionMatches(r, Unrelated(root, before.key), desired, restore) <==> Obtainable(restore)
  {
    hide Applied, Restored, Capture, CaptureFields, Unrelated, Strip, Representable, Rest, AllValues, SameMeaning, FaithfulFields;
    hide FIELDS;
    var applied := Applied(root, before.key, desired, false).value;
    CaptureAfterApply(root, before.key, desired, false, applied);
    RestoredOther(applied, restore, r, desired.key);
    CaptureUnaffected(applied, r, desired.key);
    RestoredFields(applied, restore, r);
    RestoredStrip(applied, restore, r);
    UnrelatedAcrossKeys(root, before.key, desired, false, applied);
    RestUnrelated(applied, desired.key);
    RestUnrelated(r, desired.key);
    StripsCommute(Rest(applied), desired.key, before.key);
    StripsCommute(Rest(r), desired.key, before.key);
  }

  lemma CaptureUnaffected(root: Fields, r: Fields, key: string)
    requires Provider(r, key) == Provider(root, key)
    requires Lookup(r, MODEL) == Lookup(root, MODEL) && Lookup(r, SELECTOR) == Lookup(root, SELECTOR)
    ensures Capture(r, key) == Capture(root, key)
  {
    hide CaptureFields, Meaning;
    OtherProvider(root, r, key);
    assert MODEL in r <==> MODEL in root;
    assert SELECTOR in r <==> SELECTOR in root;
  }

  // ---- and back

  /** `provider_restore_from_unrelated_unchecked`; a value that the serialiser refuses is an error. */
  function PriorProvider(toml: Toml, unrelated: TreeFields, key: string): (r: Option<ProviderRestore>)
    ensures r.Some? <==> forall f <- FieldsOf(unrelated, key) :: toml.write(FieldsOf(unrelated, key)[f]).Some?
    ensures r.Some? ==> r.value.key == key && !r.value.Unrepresentable?
  {
    match NodeAt(unrelated, PROVIDERS)
    case None => Some(Absent(key))
    case Some(providers) =>
      match NodeAt(providers, key)
      case None => Some(Absent(key))
      case Some(provider) =>
        assert forall f <- FIELDS :: f in provider <==> f in FieldsOf(unrelated, key);
        if forall f <- FIELDS :: f in provider ==> toml.write(provider[f]).Some?
        then Some(Present(key, map f | f in FIELDS && f in provider :: OwnedItem(Rendered(toml.write(provider[f]).value), provider[f])))
        else None
  }

  lemma PriorFaithful(toml: Toml, unrelated: TreeFields, key: string, prior: ProviderRestore)
    requires toml.Writes() && PriorProvider(toml, unrelated, key) == Some(prior)
    ensures FaithfulRestore(prior) && toml.PrintableRestore(prior)
    ensures SemanticsOf(if prior.Present? then prior.fields else map[]) == FieldsOf(unrelated, key)
  {
    hide Meaning, FIELDS, Toml.PrintableValue;
  }

  /** The edits of `restore_union_or_confirm_before_inner` when the keys differ. */
  function WayBack(toml: Toml, root: Fields, before: Owned, beforeUnrelated: TreeFields, desiredKey: string): Option<Fields> {
    match Applied(root, desiredKey, before, false)
    case None => None
    case Some(applied) =>
      match PriorProvider(toml, beforeUnrelated, desiredKey)
      case None => None
      case Some(prior) => Restored(applied, prior)
  }

  /** The tree has no empty table under this provider key. */
  predicate NoEmptyProvider(tree: TreeFields, key: string) {
    NodeAt(tree, PROVIDERS).Some? ==> NodeAt(NodeAt(tree, PROVIDERS).value, key) != Some(map[])
  }

  /** A projection is determined by its strip and the owned fields it lost. */
  lemma Rebuild(a: TreeFields, b: TreeFields, key: string)
    requires DropTree(a) == a && DropTree(b) == b && NoEmptyProvider(a, key) && NoEmptyProvider(b, key)
    requires Strip(a, key) == Strip(b, key) && FieldsOf(a, key) == FieldsOf(b, key)
    ensures a == b
  {
    hide FIELDS;
    if FieldsOf(a, key) == map[] {
      NothingToStrip(a, key);
      NothingToStrip(b, key);
    } else {
      ProvidersRebuilt(a, b, key);
      forall k ensures Lookup(a, k) == Lookup(b, k) {
        if k != PROVIDERS {
          assert Lookup(Strip(a, key), k) == Lookup(a, k) && Lookup(Strip(b, key), k) == Lookup(b, k);
        }
      }
      SameLookups(a, b);
    }
  }

  lemma NothingToStrip(tree: TreeFields, key: string)
    requires DropTree(tree) == tree && NoEmptyProvider(tree, key) && FieldsOf(tree, key) == map[]
    ensures Strip(tree, key) == tree
  {
    if NodeAt(tree, PROVIDERS).Some? {
      var providers := NodeAt(tree, PROVIDERS).value;
      if NodeAt(providers, key).Some? {
        var provider := NodeAt(providers, key).value;
        var none := FieldsOf(tree, key);
        forall f | f in FIELDS ensures f !in provider {
          assert f !in none;
        }
        assert provider - FIELDS == provider;
        assert providers[key := Node(provider)] == providers;
      }
      assert tree[PROVIDERS := Node(providers)] == tree;
    }
  }

  lemma ProvidersRebuilt(a: TreeFields, b: TreeFields, key: string)
    requires Strip(a, key) == Strip(b, key) && FieldsOf(a, key) == FieldsOf(b, key) != map[]
    ensures PROVIDERS in a && PROVIDERS in b && a[PROVIDERS] == b[PROVIDERS]
  {
    hide FIELDS;
    var p, q := NodeAt(a, PROVIDERS).value, NodeAt(b, PROVIDERS).value;
    var clearedP, clearedQ := ClearProviderTree(p, key), ClearProviderTree(q, key);
    assert clearedP == clearedQ by {
      assert Lookup(Strip(a, key), PROVIDERS) == if clearedP == map[] then None else Some(Node(clearedP));
      assert Lookup(Strip(b, key), PROVIDERS) == if clearedQ == map[] then None else Some(Node(clearedQ));
    }
    var m, n := NodeAt(p, key).value, NodeAt(q, key).value;
    assert m - FIELDS == n - FIELDS by {
      assert Lookup(clearedP, key) == if m - FIELDS == map[] then None else Some(Node(m - FIELDS));
      assert Lookup(clearedQ, key) == if n - FIELDS == map[] then None else Some(Node(n - FIELDS));
    }
    SplitFields(m, n, FieldsOf(a, key));
    forall k ensures Lookup(p, k) == Lookup(q, k) {
      if k != key {
        assert Lookup(clearedP, k) == Lookup(p, k) && Lookup(clearedQ, k) == Lookup(q, k);
      }
    }
    SameLookups(p, q);
  }

  lemma SplitFields(m: TreeFields, n: TreeFields, fields: TreeFields)
    requires m - FIELDS == n - FIELDS
    requires fields == map f | f in FIELDS && f in m :: m[f]
    requires fields == map f | f in FIELDS && f in n :: n[f]
    ensures m == n
  {
    hide FIELDS;
    forall f ensures Lookup(m, f) == Lookup(n, f) {
      if f in FIELDS {
        assert f in m <==> f in fields;
        assert f in n <==> f in fields;
      } else {
        assert Lookup(m - FIELDS, f) == Lookup(n - FIELDS, f);
      }
    }
    SameLookups(m, n);
  }

  lemma StripDrops(tree: TreeFields, key: string)
    ensures DropTree(Strip(tree, key)) == Strip(tree, key)
  {
    hide ClearTree;
  }

  /** Stripping one provider does not show in another. */
  lemma StripKeepsOthers(tree: TreeFields, key: string, other: string)
    requires key != other
    ensures FieldsOf(Strip(tree, key), other) == FieldsOf(tree, other)
    ensures NoEmptyProvider(Strip(tree, key), other) <==> NoEmptyProvider(tree, other)
  {
    hide FIELDS;
    if NodeAt(tree, PROVIDERS).Some? {
      var providers := NodeAt(tree, PROVIDERS).value;
      var cleared := ClearProviderTree(providers, key);
      assert NodeAt(cleared, other) == NodeAt(providers, other);
      assert NodeAt(ClearTree(tree, key), PROVIDERS) == Some(cleared);
    }
  }

  lemma RestKeepsProviders(root: Fields, key: string)
    ensures FieldsOf(Rest(root), key) == FieldsOf(MeaningOf(root), key)
    ensures NoEmptyProvider(Rest(root), key) <==> NoEmptyProvider(MeaningOf(root), key)
  {
    hide FIELDS, MeaningOf;
    assert NodeAt(Rest(root), PROVIDERS) == NodeAt(MeaningOf(root), PROVIDERS);
  }

  lemma RestoredNotEmpty(root: Fields, restore: ProviderRestore, r: Fields)
    requires Restored(root, restore) == Some(r) && FaithfulRestore(restore)
    ensures NoEmptyProvider(MeaningOf(r), restore.key)
  {
    hide Meaning, MeaningOf, FIELDS, Clear, SetProvider, DropEmpty, CaptureFields;
    if restore.Present? && restore.fields != map[] {
      RestoredFields(root, restore, r);
      var f :| f in restore.fields;
      assert f in SemanticsOf(restore.fields);
    } else {
      ClearedNotEmpty(root, restore.key);
      DropKeepsProviders(Clear(root, restore.key), restore.key);
      EmptyProviderSeen(Clear(root, restore.key), restore.key);
      EmptyProviderSeen(r, restore.key);
    }
  }

  lemma ClearedNotEmpty(root: Fields, key: string)
    ensures Provider(Clear(root, key), key) != Some(map[])
  {}

  lemma EmptyProviderSeen(root: Fields, key: string)
    ensures NoEmptyProvider(MeaningOf(root), key) <==> Provider(root, key) != Some(map[])
  {
    hide Meaning, MeaningOf;
    MeaningInner(root, PROVIDERS);
    if Inner(root, PROVIDERS).Some? {
      var providers := Inner(root, PROVIDERS).value;
      MeaningInner(providers, key);
      if Inner(providers, key).Some? {
        EmptyMeaning(Inner(providers, key).value);
      }
    }
  }

  /**
    From any document that passes the union's checks, the way back gives the owned state of the
    snapshot, and its unrelated part too, exactly when that part has no empty table at the desired key.
  */
  lemma WayBackRestores(toml: Toml, start: Fields, root: Fields, before: Owned, desired: Owned, restore: ProviderRestore, r: Fields)
    requires Capture(start, before.key) == Some(before) && restore.key == before.key != desired.key
    requires before.key != "" && desired.key != ""
    requires UnionMatches(root, Unrelated(start, before.key), desired, restore)
    requires toml.Writes() && WayBack(toml, root, before, Unrelated(start, before.key), desired.key) == Some(r)
    ensures Capture(r, before.key) == Some(before)
    ensures Unrelated(r, before.key) == Unrelated(start, before.key)
            <==> NoEmptyProvider(Unrelated(start, before.key), desired.key)
  {
    hide Applied, Restored, Capture, CaptureFields, Unrelated, Strip, Representable, Rest, FIELDS, MeaningOf;
    hide FieldsOf, NoEmptyProvider, DropTree, PriorProvider;
    var u := Unrelated(start, before.key);
    var prior := PriorProvider(toml, u, desired.key).value;
    var applied := Applied(root, desired.key, before, false).value;
    CaptureAfterApply(root, desired.key, before, false, applied);
    PriorFaithful(toml, u, desired.key, prior);
    RestoredOther(applied, prior, r, before.key);
    CaptureUnaffected(applied, r, before.key);
    StripsAgree(root, applied, r, before, desired, prior, u);
    RestUnrelated(start, before.key);
    RestUnrelated(r, before.key);
    StripDrops(Rest(start), before.key);
    StripDrops(Rest(r), before.key);
    RestoredFields(applied, prior, r);
    RestoredNotEmpty(applied, prior, r);
    RestKeepsProviders(r, desired.key);
    StripKeepsOthers(Rest(r), before.key, desired.key);
    if NoEmptyProvider(u, desired.key) {
      Rebuild(Unrelated(r, before.key), u, desired.key);
    }
  }

  lemma StripsAgree(root: Fields, applied: Fields, r: Fields, before: Owned, desired: Owned, prior: ProviderRestore, u: TreeFields)
    requires before.Faithful() && before.key != "" && desired.key != "" && before.key != desired.key
    requires prior.key == desired.key && FaithfulRestore(prior)
    requires Applied(root, desired.key, before, false) == Some(applied) && Restored(applied, prior) == Some(r)
    requires Strip(Unrelated(root, desired.key), before.key) == Strip(u, desired.key)
    ensures Strip(Unrelated(r, before.key), desired.key) == Strip(u, desired.key)
  {
    hide Applied, Restored, Unrelated, Strip, Rest;
    UnrelatedAcrossKeys(root, desired.key, before, false, applied);
    RestoredStrip(applied, prior, r);
    RestUnrelated(applied, before.key);
    RestUnrelated(r, before.key);
    StripsCommute(Rest(r), before.key, desired.key);
    StripsCommute(Rest(applied), before.key, desired.key);
  }

  /**
    Such a case: the desired provider stands in the document as an empty table. The union passes its
    checks, and the way back goes through, but the empty table is gone afterwards.
  */
  lemma EmptyTableIsLost(toml: Toml) returns (start: Fields, root: Fields, before: Owned, desired: Owned, restore: ProviderRestore, r: Fields)
    requires toml.Writes()
    ensures Capture(start, "b") == Some(before) && before.key == restore.key == "b" && desired.key == "x"
    ensures Union(start, "b", desired, restore) == Some(root)
    ensures UnionMatches(root, Unrelated(start, "b"), desired, restore)
    ensures WayBack(toml, root, before, Unrelated(start, "b"), "x") == Some(r)
    ensures Unrelated(r, "b") != Unrelated(start, "b")
  {
    hide UnionMatches, Unrelated, Applied, Restored, NoEmptyProvider;
    start := EmptyTableDocument();
    before := Capture(start, "b").value;
    assert before.fields == map[];
    desired := NamedProvider();
    restore := Absent("b");
    AppliedIffOpen(start, "b", desired, false);
    ClearNothing(start, "b");
    var applied := Applied(start, "b", desired, false).value;
    RestoredIffOpen(applied, restore);
    root := Restored(applied, restore).value;
    UnionSatisfiesChecks(start, before, desired, restore, root);
    AppliedIffOpen(root, "x", before, false);
    EmptyProviderFields(start);
    var prior := PriorProvider(toml, Unrelated(start, "b"), "x").value;
    PriorFaithful(toml, Unrelated(start, "b"), "x", prior);
    var back := Applied(root, "x", before, false).value;
    assert prior.Present? ==> prior.fields == map[] by {
      assert prior.Present? ==> SemanticsOf(prior.fields).Keys == prior.fields.Keys;
    }
    RestoredIffOpen(back, prior);
    r := WayBack(toml, root, before, Unrelated(start, "b"), "x").value;
    WayBackRestores(toml, start, root, before, desired, restore, r);
  }

  function EmptyTableDocument(): Fields {
    var providers: Fields := map["x" := Table(map[])];
    map[PROVIDERS := Table(providers)]
  }

  function NamedProvider(): Owned {
    var name := OwnedItem(Rendered(Scalar(Decor(" ", ""), "\"n\"", Text("n"))), Leaf(Text("n")));
    Owned("x", None, None, map["name" := name])
  }

  lemma NamedProviderFaithful()
    ensures NamedProvider().Faithful()
  {}

  lemma ClearNothing(root: Fields, key: string)
    requires Provider(root, key).None?
    ensures Clear(root, key) == root
  {
    if Inner(root, PROVIDERS).Some? {
      assert WithInner(root, PROVIDERS, Inner(root, PROVIDERS).value) == root;
    }
  }

  lemma EmptyProviderFields(start: Fields)
    requires start == EmptyTableDocument()
    ensures FieldsOf(Unrelated(start, "b"), "x") == map[] && !NoEmptyProvider(Unrelated(start, "b"), "x")
  {
    assert start - {MODEL, SELECTOR} == start;
    ClearNothing(start, "b");
    assert "x" in start[PROVIDERS].fields && DropEmpty(start) == start;
    assert Unrelated(start, "b") == MeaningOf(start);
    EmptyProviderSeen(start, "x");
    assert Provider(start, "x") == Some(map[]);
    FieldsOfProvider(start, "x", map[]);
  }
}
