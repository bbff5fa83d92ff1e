/**
  The unrelated projection on meanings. Stripping a provider is idempotent, strips commute, and a
  strip forgets exactly what setting or clearing that provider changes; the laws of the codec are
  calculations with these facts.
*/
module CodexTrees {
  import opened Bytes
  import opened CodexDocument
  import opened CodexApply

  function NodeAt(tree: TreeFields, key: string): Option<TreeFields> {
    if key in tree && tree[key].Node? then Some(tree[key].fields) else None
  }

  function ClearProviderTree(providers: TreeFields, key: string): TreeFields {
    if NodeAt(providers, key).None? then providers
    else
      var rest := NodeAt(providers, key).value - FIELDS;
      if rest == map[] then providers - {key} else providers[key := Node(rest)]
  }

  function ClearTree(tree: TreeFields, key: string): TreeFields {
    if NodeAt(tree, PROVIDERS).None? then tree
    else tree[PROVIDERS := Node(ClearProviderTree(NodeAt(tree, PROVIDERS).value, key))]
  }

  function DropTree(tree: TreeFields): TreeFields {
    if NodeAt(tree, PROVIDERS) == Some(map[]) then tree - {PROVIDERS} else tree
  }

  /** `unrelated_without_provider_fields`. */
  function Strip(tree: TreeFields, key: string): TreeFields { DropTree(ClearTree(tree, key)) }

  /** The owned fields of a provider, by meaning. */
  function FieldsOf(tree: TreeFields, key: string): TreeFields {
    match NodeAt(tree, PROVIDERS)
    case None => map[]
    case Some(providers) =>
      match NodeAt(providers, key)
      case None => map[]
      case Some(provider) => map f | f in FIELDS && f in provider :: provider[f]
  }

  // ---- meanings follow edits

  lemma MeaningWithout(fields: Fields, keys: set<string>)
    ensures MeaningOf(fields - keys) == MeaningOf(fields) - keys
  {}

  lemma MeaningInner(fields: Fields, key: string)
    ensures match Inner(fields, key)
            case Some(inner) => NodeAt(MeaningOf(fields), key) == Some(MeaningOf(inner))
            case None => NodeAt(MeaningOf(fields), key).None?
  {
    if Inner(fields, key).Some? {
      assert Meaning(fields[key]) == Node(MeaningOf(fields[key].fields));
    }
  }

  lemma MeaningWithInner(fields: Fields, key: string, inner: Fields)
    requires key in fields && fields[key].TableLike()
    ensures MeaningOf(WithInner(fields, key, inner)) == MeaningOf(fields)[key := Node(MeaningOf(inner))]
  {
    assert Meaning(fields[key].(fields := inner)) == Node(MeaningOf(inner));
  }

  lemma EmptyMeaning(fields: Fields)
    ensures MeaningOf(fields) == map[] <==> fields == map[]
  {
    if fields != map[] {
      var k :| k in fields;
      assert k in MeaningOf(fields);
    }
  }

  lemma MeaningOfClearProvider(providers: Fields, key: string)
    ensures MeaningOf(ClearProvider(providers, key)) == ClearProviderTree(MeaningOf(providers), key)
  {
    hide Meaning, MeaningOf;
    MeaningInner(providers, key);
    if Inner(providers, key).Some? {
      var inner := Inner(providers, key).value;
      MeaningWithout(inner, FIELDS);
      EmptyMeaning(inner - FIELDS);
      MeaningWithout(providers, {key});
      MeaningWithInner(providers, key, inner - FIELDS);
    }
  }

  lemma MeaningOfClear(root: Fields, key: string)
    ensures MeaningOf(Clear(root, key)) == ClearTree(MeaningOf(root), key)
  {
    hide Meaning, MeaningOf, ClearProvider, ClearProviderTree;
    MeaningInner(root, PROVIDERS);
    if Inner(root, PROVIDERS).Some? {
      var providers := Inner(root, PROVIDERS).value;
      MeaningOfClearProvider(providers, key);
      MeaningWithInner(root, PROVIDERS, ClearProvider(providers, key));
    }
  }

  lemma MeaningOfDrop(root: Fields)
    ensures MeaningOf(DropEmpty(root)) == DropTree(MeaningOf(root))
  {
    hide Meaning, MeaningOf;
    MeaningInner(root, PROVIDERS);
    if Inner(root, PROVIDERS).Some? {
      EmptyMeaning(Inner(root, PROVIDERS).value);
    }
    MeaningWithout(root, {PROVIDERS});
  }

  /** The projection of a document is the strip of its meaning without the top-level owned keys. */
  lemma UnrelatedIsStrip(root: Fields, key: string)
    ensures Unrelated(root, key) == Strip(MeaningOf(root) - {MODEL, SELECTOR}, key)
  {
    hide MeaningOf, DropEmpty, Clear, ClearTree, DropTree;
    MeaningOfDrop(Clear(root - {MODEL, SELECTOR}, key));
    MeaningOfClear(root - {MODEL, SELECTOR}, key);
    MeaningWithout(root, {MODEL, SELECTOR});
  }

  // ---- the calculus of strips

  lemma ClearProvidersCommute(providers: TreeFields, a: string, b: string)
    ensures ClearProviderTree(ClearProviderTree(providers, a), b) == ClearProviderTree(ClearProviderTree(providers, b), a)
  {
    hide FIELDS;
    var left := ClearProviderTree(ClearProviderTree(providers, a), b);
    var right := ClearProviderTree(ClearProviderTree(providers, b), a);
    if a != b {
      forall k ensures Lookup(left, k) == Lookup(right, k) {}
      SameLookups(left, right);
    }
  }

  lemma ClearProviderTwice(providers: TreeFields, key: string)
    ensures ClearProviderTree(ClearProviderTree(providers, key), key) == ClearProviderTree(providers, key)
  {
    if NodeAt(providers, key).Some? {
      var rest := NodeAt(providers, key).value - FIELDS;
      assert rest - FIELDS == rest;
    }
  }

  lemma ClearsCommute(tree: TreeFields, a: string, b: string)
    ensures ClearTree(ClearTree(tree, a), b) == ClearTree(ClearTree(tree, b), a)
  {
    hide ClearProviderTree;
    if NodeAt(tree, PROVIDERS).Some? {
      ClearProvidersCommute(NodeAt(tree, PROVIDERS).value, a, b);
    }
  }

  lemma ClearTwice(tree: TreeFields, key: string)
    ensures ClearTree(ClearTree(tree, key), key) == ClearTree(tree, key)
  {
    hide ClearProviderTree;
    if NodeAt(tree, PROVIDERS).Some? {
      ClearProviderTwice(NodeAt(tree, PROVIDERS).value, key);
    }
  }

  lemma StripDropped(tree: TreeFields, key: string)
    ensures Strip(DropTree(tree), key) == Strip(tree, key)
  {
    if NodeAt(tree, PROVIDERS) == Some(map[]) {
      var none: TreeFields := map[];
      assert ClearProviderTree(none, key) == map[];
      assert ClearTree(tree, key) - {PROVIDERS} == tree - {PROVIDERS};
    }
  }

  lemma StripCleared(tree: TreeFields, key: string)
    ensures Strip(ClearTree(tree, key), key) == Strip(tree, key)
  {
    ClearTwice(tree, key);
  }

  lemma StripTwice(tree: TreeFields, key: string)
    ensures Strip(Strip(tree, key), key) == Strip(tree, key)
  {
    hide ClearTree, DropTree;
    StripDropped(ClearTree(tree, key), key);
    StripCleared(tree, key);
  }

  lemma StripsCommute(tree: TreeFields, a: string, b: string)
    ensures Strip(Strip(tree, a), b) == Strip(Strip(tree, b), a)
  {
    hide ClearTree, DropTree;
    StripDropped(ClearTree(tree, a), b);
    StripDropped(ClearTree(tree, b), a);
    ClearsCommute(tree, a, b);
  }

  /** A strip of one provider sees through the strip-like edits of another. */
  lemma StripThroughClear(tree: TreeFields, a: string, b: string)
    ensures Strip(Strip(ClearTree(tree, b), a), b) == Strip(Strip(tree, a), b)
  {
    hide ClearTree, DropTree;
    StripsCommute(ClearTree(tree, b), a, b);
    StripCleared(tree, b);
    StripsCommute(tree, a, b);
  }

  lemma ClearWithout(tree: TreeFields, key: string, keys: set<string>)
    requires PROVIDERS !in keys
    ensures ClearTree(tree - keys, key) == ClearTree(tree, key) - keys
    ensures DropTree(tree - keys) == DropTree(tree) - keys
    ensures Strip(tree - keys, key) == Strip(tree, key) - keys
  {}
}
