/** The edits of a Codex document as the program makes them: in place, field by field. */
module CodexApply {
  import opened Bytes
  import opened CodexDocument

  class Document {
    var root: Fields

    constructor (root: Fields)
      ensures this.root == root
    {
      this.root := root;
    }

    /** `set_top_level`. */
    method SetTopLevel(key: string, encoded: Option<OwnedItem>, preserveDecor: bool) returns (ok: bool)
      modifies this
      ensures ok ==> SetTop(old(root), key, encoded, preserveDecor) == Some(root)
      ensures !ok ==> SetTop(old(root), key, encoded, preserveDecor).None?
    {
      if encoded.Some? {
        var item := Placed(encoded.value, Lookup(root, key), preserveDecor);
        if item.None? {
          return false;
        }
        root := root[key := item.value];
      } else {
        root := root - {key};
      }
      ok := true;
    }

    /** Remove the five fields of one provider, and the provider when nothing else is left. */
    method RemoveProviderFields(key: string)
      modifies this
      ensures root == Clear(old(root), key)
    {
      if !(PROVIDERS in root && root[PROVIDERS].TableLike()) {
        return;
      }
      var providers := root[PROVIDERS].fields;
      if key in providers && providers[key].TableLike() {
        var provider := providers[key].fields;
        ghost var before := provider;
        for i := 0 to |FIELD_LIST|
          invariant provider == before - Prefix(i)
        {
          provider := provider - {FIELD_LIST[i]};
        }
        WholePrefix();
        providers := if provider == map[] then providers - {key} else providers[key := providers[key].(fields := provider)];
      }
      root := root[PROVIDERS := root[PROVIDERS].(fields := providers)];
      assert root == Clear(old(root), key);
    }

    /** Set or remove each of the five fields of one provider, making its tables first. */
    method SetProviderFields(key: string, fields: OwnedFields, preserveDecor: bool) returns (ok: bool)
      modifies this
      ensures ok ==> SetProvider(old(root), key, fields, preserveDecor) == Some(root)
      ensures !ok ==> SetProvider(old(root), key, fields, preserveDecor).None?
    {
      hide Replaced;
      if PROVIDERS !in root {
        root := root[PROVIDERS := Table(map[])];
      }
      if !root[PROVIDERS].Table? {
        return false;
      }
      var providers := root[PROVIDERS].fields;
      var provider := TableAt(providers, key);
      if provider.None? {
        return false;
      }
      var replaced := ReplaceFields(provider.value, fields, preserveDecor);
      if replaced.None? {
        return false;
      }
      root := root[PROVIDERS := Table(providers[key := Table(replaced.value)])];
      assert root == old(root)[PROVIDERS := Table(providers[key := Table(replaced.value)])];
      ok := true;
    }

    method RemoveEmptyProviders()
      modifies this
      ensures root == DropEmpty(old(root))
    {
      if PROVIDERS in root && root[PROVIDERS].TableLike() && root[PROVIDERS].fields == map[] {
        root := root - {PROVIDERS};
      }
    }

    /** `apply_owned`. */
    method ApplyOwned(current: string, owned: Owned, preserveDecor: bool) returns (ok: bool)
      modifies this
      ensures ok ==> Applied(old(root), current, owned, preserveDecor) == Some(root)
      ensures !ok ==> Applied(old(root), current, owned, preserveDecor).None?
    {
      hide SetTop, SetProvider, Clear, DropEmpty;
      if current != owned.key && current != "" {
        RemoveProviderFields(current);
      }
      ok := SetTopLevel(MODEL, owned.model, preserveDecor);
      if !ok {
        return false;
      }
      ok := SetTopLevel(SELECTOR, owned.selector, preserveDecor);
      if !ok {
        return false;
      }
      if owned.fields != map[] && owned.key != "" {
        ok := SetProviderFields(owned.key, owned.fields, preserveDecor);
        if !ok {
          return false;
        }
      } else if owned.key != "" {
        RemoveProviderFields(owned.key);
      }
      RemoveEmptyProviders();
    }

    /** `apply_provider_restore`. */
    method ApplyProviderRestore(restore: ProviderRestore) returns (ok: bool)
      modifies this
      ensures ok ==> Restored(old(root), restore) == Some(root)
      ensures !ok ==> Restored(old(root), restore).None?
    {
      hide SetProvider;
      if restore.Unrepresentable? {
        return false;
      }
      if restore.Present? && restore.fields != map[] {
        ok := SetProviderFields(restore.key, restore.fields, false);
      } else {
        RemoveProviderFields(restore.key);
        RemoveEmptyProviders();
        ok := true;
      }
    }
  }

  /** The loop over the five fields of a provider table. */
  method ReplaceFields(provider: Fields, fields: OwnedFields, preserveDecor: bool) returns (r: Option<Fields>)
    ensures r == Replaced(provider, fields, preserveDecor)
  {
    hide Placed;
    var done := provider;
    for i := 0 to |FIELD_LIST|
      invariant forall f :: f !in Prefix(i) ==> Lookup(done, f) == Lookup(provider, f)
      invariant forall f <- Prefix(i) ::
                  if f in fields then
                    && Placed(fields[f], Lookup(provider, f), preserveDecor).Some?
                    && Lookup(done, f) == Placed(fields[f], Lookup(provider, f), preserveDecor)
                  else f !in done
    {
      var f := FIELD_LIST[i];
      NotInPrefix(i);
      if f in fields {
        var item := Placed(fields[f], Lookup(done, f), preserveDecor);
        if item.None? {
          return None;
        }
        done := done[f := item.value];
      } else {
        done := done - {f};
      }
    }
    WholePrefix();
    ReplacedFieldwise(provider, done, fields, preserveDecor);
    r := Some(done);
  }

  /** The first `i` owned fields. */
  ghost function Prefix(i: nat): set<string>
    requires i <= |FIELD_LIST|
  {
    set k | 0 <= k < i :: FIELD_LIST[k]
  }

  lemma WholePrefix()
    ensures Prefix(|FIELD_LIST|) == FIELDS
  {
    assert FIELD_LIST[0] == "name" && FIELD_LIST[1] == "base_url" && FIELD_LIST[2] == "wire_api"
           && FIELD_LIST[3] == "http_headers" && FIELD_LIST[4] == "supports_websockets";
  }

  lemma NotInPrefix(i: nat)
    requires i < |FIELD_LIST|
    ensures FIELD_LIST[i] in FIELDS && FIELD_LIST[i] !in Prefix(i) && Prefix(i + 1) == Prefix(i) + {FIELD_LIST[i]}
  {
    assert |FIELD_LIST[0]| == 4 && |FIELD_LIST[1]| == 8 && |FIELD_LIST[2]| == 8 && |FIELD_LIST[3]| == 12 && |FIELD_LIST[4]| == 19;
    assert FIELD_LIST[1][0] == 'b' && FIELD_LIST[2][0] == 'w';
  }

  lemma ReplacedFieldwise(before: Fields, provider: Fields, fields: OwnedFields, preserveDecor: bool)
    requires forall f :: f !in FIELDS ==> Lookup(provider, f) == Lookup(before, f)
    requires forall f <- FIELDS ::
               if f in fields then
                 && Placed(fields[f], Lookup(before, f), preserveDecor).Some?
                 && Lookup(provider, f) == Placed(fields[f], Lookup(before, f), preserveDecor)
               else f !in provider
    ensures Replaced(before, fields, preserveDecor) == Some(provider)
  {
    hide Placed;
    var replaced := Replaced(before, fields, preserveDecor).value;
    forall f ensures Lookup(replaced, f) == Lookup(provider, f) {
      if f in FIELDS {}
    }
    SameLookups(replaced, provider);
  }

  lemma SameLookups<T>(a: map<string, T>, b: map<string, T>)
    requires forall k :: Lookup(a, k) == Lookup(b, k)
    ensures a == b
  {
    forall k ensures k in a <==> k in b {
      assert Lookup(a, k) == Lookup(b, k);
    }
    forall k | k in a ensures a[k] == b[k] {
      assert Lookup(a, k) == Lookup(b, k);
    }
  }
}
