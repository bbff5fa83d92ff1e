/** What the comparisons of the Codex codec look at, place by place. */
module CodexChecks {
  import opened Bytes
  import opened Texts
  import opened Directories
  import opened ManagedFiles
  import CodexApply
  import opened CodexDocument
  import opened CodexLaws
  import opened CodexOverride
  import opened CodexRestoreUnion
  import opened CodexCodec
  import opened CodexUnionCodec
  import opened CodexPaths

  ghost predicate SameItem(a: Option<OwnedItem>, b: Option<OwnedItem>) {
    match (a, b)
    case (None, None) => true
    case (Some(one), Some(other)) => one.semantic == other.semantic
    case _ => false
  }

  /** Owned states compare by key and, place by place, by meaning. */
  lemma SameMeaningTells(a: Owned, b: Owned)
    ensures SameMeaning(a, b)
            <==> && a.key == b.key && SameItem(a.model, b.model) && SameItem(a.selector, b.selector)
                 && forall name :: SameItem(Lookup(a.fields, name), Lookup(b.fields, name))
  {
    var one, other := SemanticsOf(a.fields), SemanticsOf(b.fields);
    if forall name :: SameItem(Lookup(a.fields, name), Lookup(b.fields, name)) {
      forall name ensures Lookup(one, name) == Lookup(other, name) {
        assert SameItem(Lookup(a.fields, name), Lookup(b.fields, name));
      }
      CodexApply.SameLookups(one, other);
    }
    if one == other {
      forall name ensures SameItem(Lookup(a.fields, name), Lookup(b.fields, name)) {
        assert Lookup(one, name) == Lookup(other, name);
      }
    }
  }

  // ---- provider restores

  predicate IsText(tree: Tree) { tree.Leaf? && tree.atom.Text? }

  /** What a provider has to look like to be given back later: everything the service itself writes into one. */
  ghost predicate Plain(name: string, tree: Tree) {
    && (name == "name" || name == "base_url" ==> IsText(tree) && !Blank(tree.atom.text))
    && (name == "wire_api" ==> tree == Leaf(Text("responses")))
    && (name == "supports_websockets" ==> tree == Leaf(Flag(false)))
    && (name == "http_headers" ==>
          exists token: string :: !Blank(token) && tree == Node(map["Authorization" := Leaf(Text("Bearer " + token))]))
  }

  lemma PlainIff(name: string, tree: Tree)
    ensures RepresentableField(name, tree) <==> Plain(name, tree)
  {
    if name == "http_headers" {
      if IsBearerHeader(tree) {
        var text := tree.fields["Authorization"].atom.text;
        var token := text[|BEARER|..];
        assert text == "Bearer " + token;
        assert tree.fields == map["Authorization" := Leaf(Text("Bearer " + token))];
      }
      if token: string :| !Blank(token) && tree == Node(map["Authorization" := Leaf(Text("Bearer " + token))]) {
        assert ("Bearer " + token)[|BEARER|..] == token;
      }
    }
  }

  /** One of the five fields of the provider is written as a value, or as something else. */
  ghost predicate HasValue(root: Fields, key: string) { exists name :: IsField(name) && Taken(FieldItem(root, key, name)).Some? }

  ghost predicate OnlyPlainValues(root: Fields, key: string) {
    forall name :: IsField(name) && FieldItem(root, key, name).Some? ==>
                     Taken(FieldItem(root, key, name)).Some? && Plain(name, Meaning(FieldItem(root, key, name).value))
  }

  /**
    A provider is absent when none of its five fields is a value, and can be given back exactly when all
    of them are plain values.
  */
  lemma RestoreTells(root: Fields, key: string)
    ensures CaptureRestore(root, key).key == key
    ensures CaptureRestore(root, key).Absent? <==> !HasValue(root, key)
    ensures CaptureRestore(root, key).Present? <==> HasValue(root, key) && OnlyPlainValues(root, key)
    ensures CaptureRestore(root, key).Present? ==>
              forall name :: Lookup(CaptureRestore(root, key).fields, name)
                             == if IsField(name) then Taken(FieldItem(root, key, name)) else None
  {
    hide Meaning, FIELDS, IsField, Plain, RepresentableField;
    CapturedFields(root, key);
    var fields := CaptureFields(root, key);
    if fields != map[] {
      var name :| name in fields;
      assert Lookup(fields, name).Some?;
    }
    if name :| IsField(name) && Taken(FieldItem(root, key, name)).Some? {
      assert Lookup(fields, name).Some?;
    }
    ValuesTell(root, key);
    RepresentableTells(root, key, fields);
  }

  lemma CapturedFields(root: Fields, key: string)
    ensures forall name :: Lookup(CaptureFields(root, key), name) == if IsField(name) then Taken(FieldItem(root, key, name)) else None
  {
    hide Meaning, FIELDS, IsField;
    var fields := CaptureFields(root, key);
    forall name ensures Lookup(fields, name) == if IsField(name) then Taken(FieldItem(root, key, name)) else None {
      FieldIffOwned(name);
    }
  }

  lemma ValuesTell(root: Fields, key: string)
    ensures AllValues(root, key)
            <==> forall name :: IsField(name) && FieldItem(root, key, name).Some? ==> Taken(FieldItem(root, key, name)).Some?
  {
    hide Meaning, FIELDS, IsField;
    forall name ensures name in FIELDS <==> IsField(name) {
      FieldIffOwned(name);
    }
    forall name ensures FieldItem(root, key, name) == if Provider(root, key).Some? then Lookup(Provider(root, key).value, name) else None {
      FieldItemIs(root, key, name);
    }
    if Provider(root, key).Some? {
      var provider := Provider(root, key).value;
      if forall name :: IsField(name) && FieldItem(root, key, name).Some? ==> Taken(FieldItem(root, key, name)).Some? {
        forall f <- FIELDS | f in provider ensures provider[f].IsValue() {
          assert FieldItem(root, key, f) == Some(provider[f]);
        }
      }
    }
  }

  lemma RepresentableTells(root: Fields, key: string, fields: OwnedFields)
    requires forall name :: Lookup(fields, name) == if IsField(name) then Taken(FieldItem(root, key, name)) else None
    ensures Representable(fields)
            <==> forall name :: IsField(name) && Taken(FieldItem(root, key, name)).Some? ==>
                                  Plain(name, Meaning(FieldItem(root, key, name).value))
  {
    hide Meaning, IsField, Plain, RepresentableField;
    forall name | name in fields
      ensures IsField(name) && Taken(FieldItem(root, key, name)) == Some(fields[name])
      ensures RepresentableField(name, fields[name].semantic) <==> Plain(name, Meaning(FieldItem(root, key, name).value))
    {
      assert Lookup(fields, name) == Some(fields[name]);
      PlainIff(name, fields[name].semantic);
    }
    forall name | IsField(name) && Taken(FieldItem(root, key, name)).Some? ensures name in fields {
      assert Lookup(fields, name).Some?;
    }
  }

  /** The provider in use, when it is another one and named by a text that is not blank, is captured too. */
  lemma SelectedTells(root: Fields, key: string)
    ensures SelectedRestore(root, key)
            == if "model_provider" in root && root["model_provider"].IsValue() && IsText(Meaning(root["model_provider"]))
                  && !Blank(Meaning(root["model_provider"]).atom.text) && Meaning(root["model_provider"]).atom.text != key
               then Some(CaptureRestore(root, Meaning(root["model_provider"]).atom.text)) else None
  {
    hide Meaning, CaptureRestore;
  }

  // ---- existence and permissions

  /** A file compares with a snapshot by existence and permission bits. */
  lemma FileStateTells(version: Version, identity: FileIdentity)
    ensures SameFileState(version, identity)
            <==> match (version, identity)
                 case (None, Missing) => true
                 case (Some((_, inode)), Present(_, _, _, mode)) => inode.mode % 512 == mode
                 case _ => false
  {}

  /**
    The state a union is planned to leave: no file when there was none and nothing is written, else the
    permissions of the old one, or 0600.
  */
  lemma PlannedTells(version: Version, document: Fields, historical: FileIdentity)
    ensures StateMatches(version, Planned(document, historical))
            <==> if historical.Missing? && document == map[] then version.None?
                 else version.Some? && version.value.1.mode % 512 == if historical.Present? then historical.mode else 0x180
  {}
}
