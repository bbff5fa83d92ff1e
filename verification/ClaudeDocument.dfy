/**
  The part of a Claude settings document the service owns, and the rest. Capture, apply and the
  unrelated projection form a lens over the root object; an empty `env` object is normalised away.
*/
module ClaudeDocument {
  import opened Bytes
  import opened Json

  type Root = map<Octets, Value>

  datatype Ownership = LegacyThree | FourField

  datatype Owned = Owned(baseUrl: Option<Value>, authToken: Option<Value>, model: Option<Value>, apiKey: Option<Value>)

  const ENV: Octets := [0x65, 0x6E, 0x76]
  const BASE_URL_KEY: Octets := Ascii("ANTHROPIC_BASE_URL")
  const AUTH_TOKEN_KEY: Octets := Ascii("ANTHROPIC_AUTH_TOKEN")
  const MODEL_KEY: Octets := Ascii("ANTHROPIC_MODEL")
  const API_KEY: Octets := Ascii("ANTHROPIC_API_KEY")

  lemma KeysDiffer()
    ensures |BASE_URL_KEY| == 18 && |AUTH_TOKEN_KEY| == 20 && |MODEL_KEY| == 15 && |API_KEY| == 17
  {}

  function OwnedKeys(ownership: Ownership): set<Octets> {
    if ownership.LegacyThree? then {BASE_URL_KEY, AUTH_TOKEN_KEY, MODEL_KEY}
    else {BASE_URL_KEY, AUTH_TOKEN_KEY, MODEL_KEY, API_KEY}
  }

  /** What reading a settings file checks: `env`, if there is one, is an object. */
  predicate Accepted(root: Root) {
    ENV in root ==> root[ENV].Object?
  }

  function EnvOf(root: Root): map<Octets, Value>
    requires Accepted(root)
  {
    if ENV in root then root[ENV].fields else map[]
  }

  /** The root object with the given `env`, dropped when it is empty. */
  function WithEnv(root: Root, env: map<Octets, Value>): Root {
    if env == map[] then root - {ENV} else root[ENV := Object(env)]
  }

  function Field(env: map<Octets, Value>, key: Octets): Option<Value> {
    if key in env then Some(env[key]) else None
  }

  function Capture(root: Root, ownership: Ownership): Owned
    requires Accepted(root)
  {
    var env := EnvOf(root);
    Owned(Field(env, BASE_URL_KEY), Field(env, AUTH_TOKEN_KEY), Field(env, MODEL_KEY),
          if ownership.FourField? then Field(env, API_KEY) else None)
  }

  function Unrelated(root: Root, ownership: Ownership): Root
    requires Accepted(root)
  {
    WithEnv(root, EnvOf(root) - OwnedKeys(ownership))
  }

  /** The members an owned state puts into `env`. */
  function OwnedFields(owned: Owned, ownership: Ownership): (r: map<Octets, Value>)
    ensures r.Keys <= OwnedKeys(ownership)
  {
    (if owned.baseUrl.Some? then map[BASE_URL_KEY := owned.baseUrl.value] else map[])
    + (if owned.authToken.Some? then map[AUTH_TOKEN_KEY := owned.authToken.value] else map[])
    + (if owned.model.Some? then map[MODEL_KEY := owned.model.value] else map[])
    + (if ownership.FourField? && owned.apiKey.Some? then map[API_KEY := owned.apiKey.value] else map[])
  }

  predicate HasValues(owned: Owned, ownership: Ownership) {
    owned.baseUrl.Some? || owned.authToken.Some? || owned.model.Some? || (ownership.FourField? && owned.apiKey.Some?)
  }

  /** The document after the owned state replaced whatever was there. */
  function Applied(root: Root, owned: Owned, ownership: Ownership): Root
    requires Accepted(root)
  {
    WithEnv(root, EnvOf(root) - OwnedKeys(ownership) + OwnedFields(owned, ownership))
  }

  /** Equality of documents up to an empty `env`. */
  function Normal(root: Root): Root
    requires Accepted(root)
  {
    WithEnv(root, EnvOf(root))
  }

  class Document {
    var root: Root

    constructor (root: Root)
      ensures this.root == root
    {
      this.root := root;
    }

    /** `apply_owned`, key by key. */
    method ApplyOwned(owned: Owned, ownership: Ownership)
      requires Accepted(root)
      modifies this
      ensures Accepted(root) && root == Applied(old(root), owned, ownership)
    {
      hide OwnedFields, OwnedKeys, Ascii;
      var pairs := [(BASE_URL_KEY, owned.baseUrl), (AUTH_TOKEN_KEY, owned.authToken), (MODEL_KEY, owned.model)]
                   + if ownership.FourField? then [(API_KEY, owned.apiKey)] else [];
      if HasValues(owned, ownership) && ENV !in root {
        root := root[ENV := Object(map[])];
      }
      if ENV in root {
        ghost var before := EnvOf(root);
        var env := EnvOf(root);
        for i := 0 to |pairs|
          invariant forall j :: 0 <= j < i ==> Field(env, pairs[j].0) == pairs[j].1
          invariant forall key :: (forall j :: 0 <= j < i ==> pairs[j].0 != key) ==> Field(env, key) == Field(before, key)
        {
          var (key, value) := pairs[i];
          env := if value.Some? then env[key := value.value] else env - {key};
        }
        assert env == before - OwnedKeys(ownership) + OwnedFields(owned, ownership) by {
          AppliedFieldwise(before, env, pairs, owned, ownership);
        }
        root := if env == map[] then root - {ENV} else root[ENV := Object(env)];
        assert root == Applied(old(root), owned, ownership);
      } else {
        NoValuesNoFields(owned, ownership);
        assert root - {ENV} == root;
      }
    }
  }

  lemma NoValuesNoFields(owned: Owned, ownership: Ownership)
    requires !HasValues(owned, ownership)
    ensures OwnedFields(owned, ownership) == map[]
  {}

  /** Setting or removing the owned keys one by one amounts to replacing them all. */
  lemma AppliedFieldwise(before: map<Octets, Value>, env: map<Octets, Value>, pairs: seq<(Octets, Option<Value>)>,
                         owned: Owned, ownership: Ownership)
    requires pairs == [(BASE_URL_KEY, owned.baseUrl), (AUTH_TOKEN_KEY, owned.authToken), (MODEL_KEY, owned.model)]
                      + if ownership.FourField? then [(API_KEY, owned.apiKey)] else []
    requires forall j :: 0 <= j < |pairs| ==> Field(env, pairs[j].0) == pairs[j].1
    requires forall key :: (forall j :: 0 <= j < |pairs| ==> pairs[j].0 != key) ==> Field(env, key) == Field(before, key)
    ensures env == before - OwnedKeys(ownership) + OwnedFields(owned, ownership)
  {
    hide OwnedFields, Ascii;
    KeysDiffer();
    var expected := before - OwnedKeys(ownership) + OwnedFields(owned, ownership);
    forall key ensures Field(env, key) == Field(expected, key) {
      OwnedFieldIs(owned, ownership, key);
      if key == BASE_URL_KEY {
        assert pairs[0].0 == key;
      } else if key == AUTH_TOKEN_KEY {
        assert pairs[1].0 == key;
      } else if key == MODEL_KEY {
        assert pairs[2].0 == key;
      } else if ownership.FourField? && key == API_KEY {
        assert pairs[3].0 == key;
      } else {
        assert forall j :: 0 <= j < |pairs| ==> pairs[j].0 in OwnedKeys(ownership);
      }
    }
    SameFields(env, expected);
  }

  function OwnedField(owned: Owned, ownership: Ownership, key: Octets): Option<Value> {
    if key == BASE_URL_KEY then owned.baseUrl
    else if key == AUTH_TOKEN_KEY then owned.authToken
    else if key == MODEL_KEY then owned.model
    else if key == API_KEY && ownership.FourField? then owned.apiKey
    else None
  }

  lemma OwnedFieldIs(owned: Owned, ownership: Ownership, key: Octets)
    ensures Field(OwnedFields(owned, ownership), key) == OwnedField(owned, ownership, key)
  {
    hide Ascii;
    KeysDiffer();
  }

  lemma SameFields(a: map<Octets, Value>, b: map<Octets, Value>)
    requires forall key :: Field(a, key) == Field(b, key)
    ensures a == b
  {
    forall key ensures key in a <==> key in b {
      assert Field(a, key) == Field(b, key);
    }
    forall key | key in a ensures a[key] == b[key] {
      assert Field(a, key) == Field(b, key);
    }
  }

  // ---- lens laws

  /** What is captured from an applied document is what was applied. */
  lemma CaptureAfterApply(root: Root, owned: Owned, ownership: Ownership)
    requires Accepted(root)
    ensures Accepted(Applied(root, owned, ownership))
    ensures Capture(Applied(root, owned, ownership), ownership)
            == if ownership.FourField? then owned else owned.(apiKey := None)
  {
    hide OwnedFields, Ascii;
    KeysDiffer();
    EnvAfterApply(root, owned, ownership);
    OwnedFieldIs(owned, ownership, BASE_URL_KEY);
    OwnedFieldIs(owned, ownership, AUTH_TOKEN_KEY);
    OwnedFieldIs(owned, ownership, MODEL_KEY);
    OwnedFieldIs(owned, ownership, API_KEY);
  }

  lemma EnvAfterApply(root: Root, owned: Owned, ownership: Ownership)
    requires Accepted(root)
    ensures Accepted(Applied(root, owned, ownership))
    ensures EnvOf(Applied(root, owned, ownership)) == EnvOf(root) - OwnedKeys(ownership) + OwnedFields(owned, ownership)
    ensures Applied(root, owned, ownership) - {ENV} == root - {ENV}
  {}

  /** Applying an owned state leaves everything else alone. */
  lemma UnrelatedAfterApply(root: Root, owned: Owned, ownership: Ownership)
    requires Accepted(root)
    ensures Accepted(Applied(root, owned, ownership))
    ensures Unrelated(Applied(root, owned, ownership), ownership) == Unrelated(root, ownership)
  {
    EnvAfterApply(root, owned, ownership);
    var keys, fields := OwnedKeys(ownership), OwnedFields(owned, ownership);
    assert EnvOf(root) - keys + fields - keys == EnvOf(root) - keys;
    WithEnvAgain(root, EnvOf(root) - keys + fields, EnvOf(root) - keys);
  }

  lemma WithEnvAgain(root: Root, first: map<Octets, Value>, second: map<Octets, Value>)
    ensures WithEnv(WithEnv(root, first), second) == WithEnv(root, second)
  {
    if second == map[] {
      assert WithEnv(root, first) - {ENV} == root - {ENV};
    }
  }

  /** A later application overrides an earlier one. */
  lemma ApplyOverrides(root: Root, first: Owned, second: Owned, ownership: Ownership)
    requires Accepted(root)
    ensures Accepted(Applied(root, first, ownership))
    ensures Applied(Applied(root, first, ownership), second, ownership) == Applied(root, second, ownership)
  {
    EnvAfterApply(root, first, ownership);
    var keys := OwnedKeys(ownership);
    assert EnvOf(root) - keys + OwnedFields(first, ownership) - keys == EnvOf(root) - keys;
    WithEnvAgain(root, EnvOf(root) - keys + OwnedFields(first, ownership),
                 EnvOf(root) - keys + OwnedFields(second, ownership));
  }

  /** Putting the captured state back changes nothing but an empty `env`. */
  lemma ApplyCaptured(root: Root, ownership: Ownership)
    requires Accepted(root)
    ensures Applied(root, Capture(root, ownership), ownership) == Normal(root)
  {
    hide OwnedFields, Ascii;
    KeysDiffer();
    var env, owned := EnvOf(root), Capture(root, ownership);
    var applied := env - OwnedKeys(ownership) + OwnedFields(owned, ownership);
    forall key ensures Field(applied, key) == Field(env, key) {
      OwnedFieldIs(owned, ownership, key);
    }
    SameFields(applied, env);
  }

  /** Two documents with equal owned state and equal rest are equal up to an empty `env`. */
  lemma PartsDetermineDocument(a: Root, b: Root, ownership: Ownership)
    requires Accepted(a) && Accepted(b)
    requires Capture(a, ownership) == Capture(b, ownership) && Unrelated(a, ownership) == Unrelated(b, ownership)
    ensures Normal(a) == Normal(b)
  {
    var owned := Capture(a, ownership);
    ApplyCaptured(a, ownership);
    ApplyCaptured(b, ownership);
    ApplyToUnrelated(a, owned, ownership);
    ApplyToUnrelated(b, owned, ownership);
  }

  /** The unrelated projection keeps all that an application needs. */
  lemma ApplyToUnrelated(root: Root, owned: Owned, ownership: Ownership)
    requires Accepted(root)
    ensures Accepted(Unrelated(root, ownership))
    ensures Applied(Unrelated(root, ownership), owned, ownership) == Applied(root, owned, ownership)
  {
    var keys := OwnedKeys(ownership);
    assert EnvOf(Unrelated(root, ownership)) == EnvOf(root) - keys;
    assert EnvOf(root) - keys - keys == EnvOf(root) - keys;
    WithEnvAgain(root, EnvOf(root) - keys, EnvOf(root) - keys + OwnedFields(owned, ownership));
  }

  // ---- the document member by member

  /** What a document says under `env` and this name. */
  ghost function EnvMember(root: Root, name: Octets): Option<Value> {
    if Ascii("env") in root && root[Ascii("env")].Object? && name in root[Ascii("env")].fields
    then Some(root[Ascii("env")].fields[name]) else None
  }

  /** The settings the service takes over, by name. */
  predicate TakenOver(name: Octets, ownership: Ownership) {
    || name == Ascii("ANTHROPIC_BASE_URL") || name == Ascii("ANTHROPIC_AUTH_TOKEN") || name == Ascii("ANTHROPIC_MODEL")
    || (ownership == FourField && name == Ascii("ANTHROPIC_API_KEY"))
  }

  lemma EnvIsEnv()
    ensures Ascii("env") == ENV
  {}

  lemma OwnedIffTakenOver(name: Octets, ownership: Ownership)
    ensures name in OwnedKeys(ownership) <==> TakenOver(name, ownership)
  {
    hide Ascii;
  }

  /** The documents agree everywhere but under `env`; a name there has its value as before, or as `settings` says. */
  ghost predicate EnvReplaced(after: Root, before: Root, settings: map<Octets, Option<Value>>) {
    && (forall key :: key != Ascii("env") ==> Field(after, key) == Field(before, key))
    && (forall name :: EnvMember(after, name) == if name in settings then settings[name] else EnvMember(before, name))
    && (Ascii("env") in after <==> exists name :: EnvMember(after, name).Some?)
  }

  /** Each setting goes to its own name; no other member of the document changes, and an empty `env` is not left behind. */
  lemma AppliedTells(root: Root, owned: Owned, ownership: Ownership)
    requires Accepted(root)
    ensures var three := map[Ascii("ANTHROPIC_BASE_URL") := owned.baseUrl, Ascii("ANTHROPIC_AUTH_TOKEN") := owned.authToken,
                             Ascii("ANTHROPIC_MODEL") := owned.model];
            EnvReplaced(Applied(root, owned, ownership), root,
                        if ownership == FourField then three[Ascii("ANTHROPIC_API_KEY") := owned.apiKey] else three)
  {
    hide Ascii, OwnedFields, OwnedKeys;
    EnvIsEnv();
    KeysDiffer();
    EnvAfterApply(root, owned, ownership);
    var env := EnvOf(root) - OwnedKeys(ownership) + OwnedFields(owned, ownership);
    forall name ensures EnvMember(Applied(root, owned, ownership), name) == Field(env, name) {}
    forall name ensures Field(env, name) == if TakenOver(name, ownership) then OwnedField(owned, ownership, name) else EnvMember(root, name) {
      OwnedFieldIs(owned, ownership, name);
      OwnedIffTakenOver(name, ownership);
    }
    if env != map[] {
      var name :| name in env;
      assert EnvMember(Applied(root, owned, ownership), name).Some?;
    }
  }

  /** The unrelated part is the document without those settings, name by name. */
  lemma UnrelatedTells(root: Root, ownership: Ownership)
    requires Accepted(root)
    ensures var three: map<Octets, Option<Value>> :=
              map[Ascii("ANTHROPIC_BASE_URL") := None, Ascii("ANTHROPIC_AUTH_TOKEN") := None, Ascii("ANTHROPIC_MODEL") := None];
            EnvReplaced(Unrelated(root, ownership), root,
                        if ownership == FourField then three[Ascii("ANTHROPIC_API_KEY") := None] else three)
  {
    hide Ascii, OwnedKeys;
    EnvIsEnv();
    KeysDiffer();
    var env := EnvOf(root) - OwnedKeys(ownership);
    forall name ensures EnvMember(Unrelated(root, ownership), name) == Field(env, name) {}
    forall name ensures Field(env, name) == if TakenOver(name, ownership) then None else EnvMember(root, name) {
      OwnedIffTakenOver(name, ownership);
    }
    if env != map[] {
      var name :| name in env;
      assert EnvMember(Unrelated(root, ownership), name).Some?;
    }
  }

  /** Captured is what stands under the four names; the legacy ownership leaves the API key alone. */
  lemma CaptureTells(root: Root, ownership: Ownership)
    requires Accepted(root)
    ensures Capture(root, ownership)
            == Owned(EnvMember(root, Ascii("ANTHROPIC_BASE_URL")), EnvMember(root, Ascii("ANTHROPIC_AUTH_TOKEN")),
                     EnvMember(root, Ascii("ANTHROPIC_MODEL")),
                     if ownership == FourField then EnvMember(root, Ascii("ANTHROPIC_API_KEY")) else None)
  {
    hide Ascii;
    EnvIsEnv();
  }
}
