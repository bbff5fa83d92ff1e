/**
  The edits of a Codex document, read off path by path: what stands under `model`,
  `model_provider` and the five fields of one provider, and that nothing else moves.
*/
module CodexPaths {
  import opened Bytes
  import opened CodexDocument
  import opened CodexTrees
  import opened CodexLaws

  type Path = seq<string>

  /** What stands at the end of a path. */
  function Seek(tree: Tree, path: Path): Option<Tree>
    decreases |path|
  {
    if path == [] then Some(tree)
    else if tree.Node? && path[0] in tree.fields then Seek(tree.fields[path[0]], path[1..])
    else None
  }

  function At(root: TreeFields, path: Path): Option<Tree>
    requires path != []
  {
    if path[0] in root then Seek(root[path[0]], path[1..]) else None
  }

  /** Something other than a table stands there. */
  predicate LeafAt(root: TreeFields, path: Path)
    requires path != []
  {
    At(root, path).Some? && !At(root, path).value.Node?
  }

  predicate IsField(name: string) {
    name == "name" || name == "base_url" || name == "wire_api" || name == "http_headers" || name == "supports_websockets"
  }

  predicate ProviderField(path: Path, key: string) {
    |path| >= 3 && path[0] == "model_providers" && path[1] == key && IsField(path[2])
  }

  predicate OwnedPath(path: Path, key: string)
    requires path != []
  {
    path[0] == "model" || path[0] == "model_provider" || ProviderField(path, key)
  }

  // ---- leaves of stripped trees

  /** What stands at a path after a strip: the same, unless the path is owned or what stood there is a table. */
  ghost predicate SameLeaf(after: TreeFields, before: TreeFields, path: Path)
    requires path != []
  {
    && (LeafAt(after, path) <==> LeafAt(before, path))
    && (LeafAt(before, path) ==> At(after, path) == At(before, path))
  }

  lemma DropTells(tree: TreeFields, path: Path)
    requires path != []
    ensures SameLeaf(DropTree(tree), tree, path)
  {
    if path[0] == "model_providers" && NodeAt(tree, PROVIDERS) == Some(map[]) {
      assert path[1..] == [] || Seek(tree[path[0]], path[1..]).None?;
    }
  }

  lemma SeekOwn(fields: TreeFields, path: Path)
    requires path != []
    ensures Seek(Node(fields), path) == if path[0] in fields then Seek(fields[path[0]], path[1..]) else None
  {}

  lemma FieldIffOwned(name: string)
    ensures name in FIELDS <==> IsField(name)
  {}

  /** The leaves of a provider that is cleared, seen from the providers table. */
  lemma ClearProviderTells(providers: TreeFields, key: string, path: Path)
    requires path != []
    ensures if |path| >= 2 && path[0] == key && IsField(path[1]) then !LeafAt(ClearProviderTree(providers, key), path)
            else SameLeaf(ClearProviderTree(providers, key), providers, path)
  {
    hide FIELDS, IsField;
    var after := ClearProviderTree(providers, key);
    if path[0] == key && NodeAt(providers, key).Some? {
      var rest := NodeAt(providers, key).value - FIELDS;
      if |path| >= 2 {
        FieldIffOwned(path[1]);
        SeekOwn(providers[key].fields, path[1..]);
        SeekOwn(rest, path[1..]);
      }
    }
  }

  lemma ClearTells(tree: TreeFields, key: string, path: Path)
    requires path != []
    ensures if ProviderField(path, key) then !LeafAt(ClearTree(tree, key), path)
            else SameLeaf(ClearTree(tree, key), tree, path)
  {
    hide IsField, ClearProviderTree;
    if path[0] == "model_providers" && NodeAt(tree, PROVIDERS).Some? && |path| >= 2 {
      var providers := NodeAt(tree, PROVIDERS).value;
      ClearProviderTells(providers, key, path[1..]);
      SeekOwn(providers, path[1..]);
      SeekOwn(ClearProviderTree(providers, key), path[1..]);
    }
  }

  /** The unrelated part has exactly the leaves that stand at no owned path. */
  lemma UnrelatedTells(root: Fields, key: string, path: Path)
    requires path != []
    ensures if OwnedPath(path, key) then !LeafAt(Unrelated(root, key), path)
            else SameLeaf(Unrelated(root, key), MeaningOf(root), path)
  {
    hide IsField, MeaningOf, DropTree, ClearTree, Unrelated, Seek;
    var top := MeaningOf(root) - {MODEL, SELECTOR};
    UnrelatedIsStrip(root, key);
    DropTells(ClearTree(top, key), path);
    ClearTells(top, key, path);
  }

  // ---- what an application puts where

  /** What stands under a top-level owned key or an owned field: the value given for it, or nothing. */
  ghost predicate Given(after: TreeFields, path: Path, depth: nat, value: Option<OwnedItem>)
    requires 0 < depth <= |path|
  {
    At(after, path) == if value.Some? then Seek(value.value.semantic, path[depth..]) else None
  }

  /** The leaves of a document after an application, path by path. */
  ghost predicate Leaves(after: TreeFields, before: TreeFields, current: string, owned: Owned, path: Path)
    requires path != []
  {
    if path[0] == "model" then Given(after, path, 1, owned.model)
    else if path[0] == "model_provider" then Given(after, path, 1, owned.selector)
    else if owned.key != "" && ProviderField(path, owned.key) then
      if path[2] in owned.fields then Given(after, path, 3, Some(owned.fields[path[2]])) else !LeafAt(after, path)
    else if ProviderField(path, current) && current != "" then !LeafAt(after, path)
    else SameLeaf(after, before, path)
  }

  lemma TopTells(cleared: Fields, selected: Fields, owned: Owned, preserveDecor: bool, path: Path)
    requires path != [] && TopSet(cleared, selected, owned, preserveDecor)
    ensures if path[0] == "model" then Given(MeaningOf(selected), path, 1, owned.model)
            else if path[0] == "model_provider" then Given(MeaningOf(selected), path, 1, owned.selector)
            else At(MeaningOf(selected), path) == At(MeaningOf(cleared), path)
  {
    hide Meaning, Seek;
    assert Lookup(selected, path[0]).Some? ==> path[0] in MeaningOf(selected);
    if path[0] != "model" && path[0] != "model_provider" {
      assert Lookup(selected, path[0]) == Lookup(cleared, path[0]);
    }
  }

  /** The fields of one provider as they were set, seen from its own table. */
  lemma ReplacedTells(replaced: Fields, provider: Fields, fields: OwnedFields, preserveDecor: bool, path: Path)
    requires path != [] && Holds(replaced, provider, fields, preserveDecor)
    ensures if !IsField(path[0]) then At(MeaningOf(replaced), path) == At(MeaningOf(provider), path)
            else if path[0] in fields then Given(MeaningOf(replaced), path, 1, Some(fields[path[0]]))
            else At(MeaningOf(replaced), path).None?
  {
    hide Meaning, FIELDS, Seek, IsField;
    FieldIffOwned(path[0]);
    if !IsField(path[0]) {
      assert Lookup(replaced, path[0]) == Lookup(provider, path[0]);
    }
  }

  lemma SetTells(root: Fields, key: string, fields: OwnedFields, preserveDecor: bool, r: Fields, path: Path)
    requires path != [] && SetProvider(root, key, fields, preserveDecor) == Some(r) && FaithfulFields(fields)
    ensures if ProviderField(path, key) then
              if path[2] in fields then Given(MeaningOf(r), path, 3, Some(fields[path[2]])) else At(MeaningOf(r), path).None?
            else SameLeaf(MeaningOf(r), MeaningOf(root), path)
  {
    hide SetProvider, Meaning, MeaningOf, Holds, IsField;
    var providers, provider, replaced := SetProviderIs(root, key, fields, preserveDecor, r);
    TableMeaning(root, PROVIDERS, providers);
    TableMeaning(providers, key, provider);
    UpdatedMeaning(providers, key, replaced);
    UpdatedMeaning(root, PROVIDERS, providers[key := Table(replaced)]);
    if path[0] == "model_providers" && |path| >= 2 {
      var ps := MeaningOf(providers);
      SeekOwn(ps[key := Node(MeaningOf(replaced))], path[1..]);
      SeekOwn(ps, path[1..]);
      if path[1] == key && |path| >= 3 {
        SeekOwn(MeaningOf(replaced), path[2..]);
        SeekOwn(MeaningOf(provider), path[2..]);
        assert path[1..][1..] == path[2..] && path[2..][1..] == path[3..];
        ReplacedTells(replaced, provider, fields, preserveDecor, path[2..]);
      }
    }
  }

  /** Clearing one provider, seen on the meaning of the document. */
  lemma ClearedTells(root: Fields, key: string, path: Path)
    requires path != []
    ensures if ProviderField(path, key) then !LeafAt(MeaningOf(Clear(root, key)), path)
            else SameLeaf(MeaningOf(Clear(root, key)), MeaningOf(root), path)
  {
    hide Clear, ClearTree, MeaningOf, IsField;
    MeaningOfClear(root, key);
    ClearTells(MeaningOf(root), key, path);
  }

  lemma DroppedTells(root: Fields, path: Path)
    requires path != []
    ensures SameLeaf(MeaningOf(DropEmpty(root)), MeaningOf(root), path)
    ensures path[0] != "model_providers" ==> At(MeaningOf(DropEmpty(root)), path) == At(MeaningOf(root), path)
  {
    hide MeaningOf, DropEmpty;
    MeaningOfDrop(root);
    DropTells(MeaningOf(root), path);
  }

  /**
    After an application, path by path: the model and the selector are the given ones, the five
    fields of the provider are the given ones and no others, those of the previous provider are gone,
    and every other leaf of the document is what it was.
  */
  lemma AppliedTells(root: Fields, current: string, owned: Owned, preserveDecor: bool, r: Fields, path: Path)
    requires path != [] && Applied(root, current, owned, preserveDecor) == Some(r) && owned.Faithful() && owned.key != ""
    ensures Leaves(MeaningOf(r), MeaningOf(root), current, owned, path)
  {
    hide Applied, SetProvider, Clear, DropEmpty, MeaningOf, IsField, Meaning, TopSet, FaithfulFields, Seek;
    var selected, done := AppliedSteps(root, current, owned, preserveDecor, r);
    var cleared := Cleared(root, current, owned);
    ClearedTells(root, current, path);
    TopTells(cleared, selected, owned, preserveDecor, path);
    DroppedTells(done, path);
    if owned.fields != map[] {
      SetTells(selected, owned.key, owned.fields, preserveDecor, done, path);
      DroppedFields(done, path);
    } else {
      ClearedTells(selected, owned.key, path);
    }
    EditedTop(selected, owned, preserveDecor, done, path);
  }

  /** A table on the way to something is not empty, so it is not dropped. */
  lemma DroppedFields(root: Fields, path: Path)
    requires path != []
    ensures |path| >= 2 ==> At(MeaningOf(DropEmpty(root)), path) == At(MeaningOf(root), path)
  {
    hide MeaningOf, DropEmpty;
    MeaningOfDrop(root);
    var tree := MeaningOf(root);
    if |path| >= 2 && path[0] == "model_providers" && NodeAt(tree, PROVIDERS) == Some(map[]) {
      SeekOwn(map[], path[1..]);
    }
  }

  lemma EditedTop(selected: Fields, owned: Owned, preserveDecor: bool, done: Fields, path: Path)
    requires path != []
    requires SetProvider(selected, owned.key, owned.fields, preserveDecor) == Some(done) || done == Clear(selected, owned.key)
    ensures path[0] != "model_providers" ==> At(MeaningOf(done), path) == At(MeaningOf(selected), path)
  {
    hide Replaced, Meaning, Seek, ClearProvider;
    assert path[0] != "model_providers" ==> Lookup(done, path[0]) == Lookup(selected, path[0]);
  }

  /** Giving one provider back moves nothing but its five fields. */
  lemma RestoredTells(root: Fields, restore: ProviderRestore, r: Fields, path: Path)
    requires path != [] && Restored(root, restore) == Some(r) && (restore.Present? ==> FaithfulFields(restore.fields))
    ensures !restore.Unrepresentable?
    ensures if ProviderField(path, restore.key) then
              if restore.Present? && path[2] in restore.fields then Given(MeaningOf(r), path, 3, Some(restore.fields[path[2]]))
              else !LeafAt(MeaningOf(r), path)
            else SameLeaf(MeaningOf(r), MeaningOf(root), path)
  {
    hide SetProvider, Clear, DropEmpty, MeaningOf, IsField, Meaning, FaithfulFields, Seek;
    if restore.Present? && restore.fields != map[] {
      SetTells(root, restore.key, restore.fields, false, r, path);
    } else {
      ClearedTells(root, restore.key, path);
      DroppedTells(Clear(root, restore.key), path);
    }
  }

  // ---- what is captured

  /** The item written under a field of a provider. */
  function FieldItem(root: Fields, key: string, name: string): Option<Item> {
    if "model_providers" in root && root["model_providers"].TableLike() then
      var providers := root["model_providers"].fields;
      if key in providers && providers[key].TableLike() && name in providers[key].fields
      then Some(providers[key].fields[name]) else None
    else None
  }

  /** A value as it is written, with what it means. */
  function Taken(item: Option<Item>): Option<OwnedItem> {
    if item.Some? && item.value.IsValue() then Some(OwnedItem(Rendered(item.value), Meaning(item.value))) else None
  }

  /** Captured is what stands at the owned places; a table where the model or the selector belongs is a collision. */
  lemma CaptureTells(root: Fields, key: string)
    ensures Capture(root, key).None?
            <==> || ("model" in root && (root["model"].Table? || root["model"].Tables?))
                 || ("model_provider" in root && (root["model_provider"].Table? || root["model_provider"].Tables?))
    ensures Capture(root, key).Some? ==>
              var owned := Capture(root, key).value;
              && owned.key == key && owned.model == Taken(Lookup(root, "model"))
              && owned.selector == Taken(Lookup(root, "model_provider"))
              && forall name :: Lookup(owned.fields, name) == if IsField(name) then Taken(FieldItem(root, key, name)) else None
  {
    hide Meaning, FIELDS, IsField;
    var fields := CaptureFields(root, key);
    forall name ensures Lookup(fields, name) == if IsField(name) then Taken(FieldItem(root, key, name)) else None {
      FieldIffOwned(name);
    }
  }

  /** With decor kept, a value that replaces a value stands between the same white space and comments. */
  lemma DecorKept(root: Fields, current: string, owned: Owned, r: Fields, name: string)
    requires Applied(root, current, owned, true) == Some(r) && owned.Faithful() && owned.key != ""
    ensures Taken(Lookup(root, "model")).Some? && owned.model.Some? ==>
              "model" in r && r["model"] == owned.model.value.rendered.item.(decor := root["model"].decor)
    ensures Taken(Lookup(root, "model_provider")).Some? && owned.selector.Some? ==>
              "model_provider" in r && r["model_provider"] == owned.selector.value.rendered.item.(decor := root["model_provider"].decor)
    ensures name in owned.fields && Taken(FieldItem(root, owned.key, name)).Some? ==>
              FieldItem(r, owned.key, name)
              == Some(owned.fields[name].rendered.item.(decor := FieldItem(root, owned.key, name).value.decor))
  {
    TopDecorKept(root, current, owned, r);
    if name in owned.fields && Taken(FieldItem(root, owned.key, name)).Some? {
      FieldDecorKept(root, current, owned, r, name);
    }
  }

  lemma TopDecorKept(root: Fields, current: string, owned: Owned, r: Fields)
    requires Applied(root, current, owned, true) == Some(r) && owned.Faithful() && owned.key != ""
    ensures Taken(Lookup(root, "model")).Some? && owned.model.Some? ==>
              "model" in r && r["model"] == owned.model.value.rendered.item.(decor := root["model"].decor)
    ensures Taken(Lookup(root, "model_provider")).Some? && owned.selector.Some? ==>
              "model_provider" in r && r["model_provider"] == owned.selector.value.rendered.item.(decor := root["model_provider"].decor)
  {
    hide Meaning, SetProvider, Clear, DropEmpty, FaithfulFields;
    var cleared := Cleared(root, current, owned);
    var selected := SetTop(SetTop(cleared, MODEL, owned.model, true).value, SELECTOR, owned.selector, true).value;
    var done := if owned.fields != map[] then SetProvider(selected, owned.key, owned.fields, true).value
                else Clear(selected, owned.key);
    ClearKeepsTop(root, current);
    ProviderEditKeepsTop(selected, owned.key, owned.fields, true, done, "model");
    ProviderEditKeepsTop(selected, owned.key, owned.fields, true, done, "model_provider");
    assert Lookup(r, "model") == Lookup(selected, "model") && Lookup(r, "model_provider") == Lookup(selected, "model_provider");
  }

  lemma ClearKeepsTop(root: Fields, key: string)
    ensures Lookup(Clear(root, key), "model") == Lookup(root, "model")
    ensures Lookup(Clear(root, key), "model_provider") == Lookup(root, "model_provider")
  {
    hide ClearProvider;
  }

  lemma FieldItemIs(root: Fields, key: string, name: string)
    ensures FieldItem(root, key, name) == if Provider(root, key).Some? then Lookup(Provider(root, key).value, name) else None
  {}

  lemma FieldDecorKept(root: Fields, current: string, owned: Owned, r: Fields, name: string)
    requires Applied(root, current, owned, true) == Some(r) && owned.Faithful() && owned.key != ""
    requires name in owned.fields && Taken(FieldItem(root, owned.key, name)).Some?
    ensures FieldItem(r, owned.key, name)
            == Some(owned.fields[name].rendered.item.(decor := FieldItem(root, owned.key, name).value.decor))
  {
    hide Applied, Meaning, Clear, DropEmpty, FieldItem, Provider, TopSet, SetProvider, Placed;
    var selected, done := AppliedSteps(root, current, owned, true, r);
    FieldItemIs(root, owned.key, name);
    FieldItemIs(selected, owned.key, name);
    FieldItemIs(r, owned.key, name);
    TopSetRest(Cleared(root, current, owned), selected, owned, true);
    if current != owned.key {
      ClearKeepsOthers(root, current, owned.key);
    }
    FieldPlaced(selected, owned.key, owned.fields, done, name);
    DropKeepsProviders(done, owned.key);
    PlacedTells(owned.fields[name], FieldItem(root, owned.key, name).value);
  }

  lemma PlacedTells(encoded: OwnedItem, prior: Item)
    requires encoded.Faithful() && prior.IsValue()
    ensures Placed(encoded, Some(prior), true) == Some(encoded.rendered.item.(decor := prior.decor))
  {}

  lemma FieldPlaced(root: Fields, key: string, fields: OwnedFields, r: Fields, name: string)
    requires SetProvider(root, key, fields, true) == Some(r) && name in fields && name in FIELDS
    requires Provider(root, key).Some? && name in Provider(root, key).value
    ensures Provider(r, key).Some?
    ensures Lookup(Provider(r, key).value, name) == Placed(fields[name], Some(Provider(root, key).value[name]), true)
  {
    hide Placed, FIELDS;
  }

  // ---- meaning

  /** Written differently perhaps, but the same value: tables and inline tables, arrays and arrays of tables alike. */
  ghost predicate Similar(a: Item, b: Item)
    decreases a, 1
  {
    match (a, b)
    case (Scalar(_, _, one), Scalar(_, _, other)) => one == other
    case (Array(_, _), Array(_, _)) => SimilarAll(a, a.items, b.items)
    case (Array(_, _), Tables(_)) => SimilarAll(a, a.items, b.tables)
    case (Tables(_), Array(_, _)) => SimilarAll(a, a.tables, b.items)
    case (Tables(_), Tables(_)) => SimilarAll(a, a.tables, b.tables)
    case (Inline(_, _), Inline(_, _)) => SimilarFields(a, b)
    case (Inline(_, _), Table(_)) => SimilarFields(a, b)
    case (Table(_), Inline(_, _)) => SimilarFields(a, b)
    case (Table(_), Table(_)) => SimilarFields(a, b)
    case _ => false
  }

  ghost predicate SimilarAll(a: Item, xs: seq<Item>, ys: seq<Item>)
    requires (a.Array? && a.items == xs) || (a.Tables? && a.tables == xs)
    decreases a, 0
  {
    |xs| == |ys| && forall i :: 0 <= i < |xs| ==> Similar(xs[i], ys[i])
  }

  ghost predicate SimilarFields(a: Item, b: Item)
    requires a.TableLike() && b.TableLike()
    decreases a, 0
  {
    a.fields.Keys == b.fields.Keys && forall k <- a.fields :: k in b.fields && Similar(a.fields[k], b.fields[k])
  }

  /** Two items mean the same exactly when they are the same values, however written. */
  lemma {:induction false} MeaningIff(a: Item, b: Item)
    ensures Meaning(a) == Meaning(b) <==> Similar(a, b)
    decreases a
  {
    if (a.Array? || a.Tables?) && (b.Array? || b.Tables?) {
      var xs := if a.Array? then a.items else a.tables;
      var ys := if b.Array? then b.items else b.tables;
      forall i | 0 <= i < |xs| && i < |ys| ensures Meaning(xs[i]) == Meaning(ys[i]) <==> Similar(xs[i], ys[i]) {
        MeaningIff(xs[i], ys[i]);
      }
      ListsIff(a, b, xs, ys);
    } else if a.TableLike() && b.TableLike() {
      forall k <- a.fields | k in b.fields ensures Meaning(a.fields[k]) == Meaning(b.fields[k]) <==> Similar(a.fields[k], b.fields[k]) {
        MeaningIff(a.fields[k], b.fields[k]);
      }
      TablesIff(a, b);
    }
  }

  lemma ListsIff(a: Item, b: Item, xs: seq<Item>, ys: seq<Item>)
    requires (a.Array? && a.items == xs) || (a.Tables? && a.tables == xs)
    requires (b.Array? && b.items == ys) || (b.Tables? && b.tables == ys)
    requires forall i :: 0 <= i < |xs| && i < |ys| ==> (Meaning(xs[i]) == Meaning(ys[i]) <==> Similar(xs[i], ys[i]))
    ensures Meaning(a) == Meaning(b) <==> SimilarAll(a, xs, ys)
  {
    var one, other := Meaning(a).items, Meaning(b).items;
    assert |one| == |xs| && |other| == |ys|;
    assert forall i :: 0 <= i < |xs| ==> one[i] == Meaning(xs[i]);
    assert forall i :: 0 <= i < |ys| ==> other[i] == Meaning(ys[i]);
    if SimilarAll(a, xs, ys) {
      assert one == other;
    }
  }

  lemma TablesIff(a: Item, b: Item)
    requires a.TableLike() && b.TableLike()
    requires forall k <- a.fields :: k in b.fields ==> (Meaning(a.fields[k]) == Meaning(b.fields[k]) <==> Similar(a.fields[k], b.fields[k]))
    ensures Meaning(a) == Meaning(b) <==> SimilarFields(a, b)
  {
    var one, other := Meaning(a).fields, Meaning(b).fields;
    assert one.Keys == a.fields.Keys && other.Keys == b.fields.Keys;
    assert forall k <- a.fields :: one[k] == Meaning(a.fields[k]);
    assert forall k <- b.fields :: other[k] == Meaning(b.fields[k]);
    if SimilarFields(a, b) {
      assert one == other;
    }
  }
}
