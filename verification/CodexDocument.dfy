/**
  A Codex configuration document: TOML items, what they mean, and the three edits everything else is
  made of. An item keeps its kind (inline value or table), so the edits fail where the program's do.
*/
module CodexDocument {
  import opened Bytes

  datatype Atom = Text(text: string) | Flag(flag: bool) | Other(literal: string)

  /** The meaning of an item, with no trace of how it was written. */
  datatype Tree = Leaf(atom: Atom) | List(items: seq<Tree>) | Node(fields: map<string, Tree>)

  /** White space and comments around a value. */
  datatype Decor = Decor(prefix: string, suffix: string)

  datatype Item =
    | Scalar(decor: Decor, literal: string, atom: Atom)
    | Array(decor: Decor, items: seq<Item>)
    | Inline(decor: Decor, fields: map<string, Item>)
    | Table(fields: map<string, Item>)
    | Tables(tables: seq<Item>)
  {
    /** `as_value`: anything written to the right of an equals sign. */
    predicate IsValue() { Scalar? || Array? || Inline? }

    /** `as_table_like`. */
    predicate TableLike() { Inline? || Table? }
  }

  type Fields = map<string, Item>

  type TreeFields = map<string, Tree>

  function Meaning(item: Item): Tree {
    match item
    case Scalar(_, _, atom) => Leaf(atom)
    case Array(_, items) => List(seq(|items|, i requires 0 <= i < |items| => Meaning(items[i])))
    case Inline(_, fields) => Node(map k | k in fields :: Meaning(fields[k]))
    case Table(fields) => Node(map k | k in fields :: Meaning(fields[k]))
    case Tables(tables) => List(seq(|tables|, i requires 0 <= i < |tables| => Meaning(tables[i])))
  }

  function MeaningOf(fields: Fields): TreeFields { map k | k in fields :: Meaning(fields[k]) }

  const MODEL := "model"
  const SELECTOR := "model_provider"
  const PROVIDERS := "model_providers"

  const FIELD_LIST := ["name", "base_url", "wire_api", "http_headers", "supports_websockets"]
  const FIELDS: set<string> := {"name", "base_url", "wire_api", "http_headers", "supports_websockets"}

  function Lookup<T>(m: map<string, T>, key: string): Option<T> {
    if key in m then Some(m[key]) else None
  }

  // ---- owned items

  /** The stored text of a value: one that parses back, or one that does not. */
  datatype Rendering = Rendered(item: Item) | Garbage(text: string)

  datatype OwnedItem = OwnedItem(rendered: Rendering, semantic: Tree)
  {
    /** What the document service itself produces: the text parses to a value with this meaning. */
    predicate Faithful() {
      rendered.Rendered? && rendered.item.IsValue() && Meaning(rendered.item) == semantic
    }
  }

  type OwnedFields = map<string, OwnedItem>

  datatype Owned = Owned(key: string, model: Option<OwnedItem>, selector: Option<OwnedItem>, fields: OwnedFields)
  {
    predicate Faithful() {
      && (model.Some? ==> model.value.Faithful())
      && (selector.Some? ==> selector.value.Faithful())
      && fields.Keys <= FIELDS
      && FaithfulFields(fields)
    }
  }

  predicate FaithfulFields(fields: OwnedFields) { forall f <- fields :: fields[f].Faithful() }

  /** `item_text`: only values are captured. */
  function ItemText(item: Option<Item>): Option<OwnedItem> {
    if item.Some? && item.value.IsValue() then Some(OwnedItem(Rendered(item.value), Meaning(item.value))) else None
  }

  /** `parse_value`, keeping the decor of the value it replaces when asked to. */
  function Placed(encoded: OwnedItem, prior: Option<Item>, preserveDecor: bool): (r: Option<Item>)
    ensures r.Some? ==> r.value.IsValue()
  {
    if encoded.rendered.Garbage? || !encoded.rendered.item.IsValue() then None
    else if preserveDecor && prior.Some? && prior.value.IsValue()
    then Some(encoded.rendered.item.(decor := prior.value.decor))
    else Some(encoded.rendered.item)
  }

  /** Placing keeps the meaning, and without preserved decor the very text. */
  lemma PlacedMeans(encoded: OwnedItem, prior: Option<Item>, preserveDecor: bool)
    requires encoded.Faithful()
    ensures Placed(encoded, prior, preserveDecor).Some?
    ensures Meaning(Placed(encoded, prior, preserveDecor).value) == encoded.semantic
    ensures !preserveDecor ==> ItemText(Placed(encoded, prior, preserveDecor)) == Some(encoded)
  {}

  // ---- the providers table

  /** The fields of the table-like item under `key`. */
  function Inner(fields: Fields, key: string): Option<Fields> {
    if key in fields && fields[key].TableLike() then Some(fields[key].fields) else None
  }

  /** The same item with other fields, of the same kind. */
  function WithInner(fields: Fields, key: string, inner: Fields): Fields
    requires key in fields && fields[key].TableLike()
  {
    fields[key := fields[key].(fields := inner)]
  }

  /** The five owned fields leave a provider, and an empty provider leaves the table. */
  function ClearProvider(providers: Fields, key: string): Fields {
    if Inner(providers, key).None? then providers
    else
      var rest := Inner(providers, key).value - FIELDS;
      if rest == map[] then providers - {key} else WithInner(providers, key, rest)
  }

  function Clear(root: Fields, key: string): Fields {
    if Inner(root, PROVIDERS).None? then root
    else WithInner(root, PROVIDERS, ClearProvider(Inner(root, PROVIDERS).value, key))
  }

  /** An empty providers table leaves the document. */
  function DropEmpty(root: Fields): Fields {
    if Inner(root, PROVIDERS) == Some(map[]) then root - {PROVIDERS} else root
  }

  /** The five fields of a provider table after setting or removing each of them. */
  function Replaced(provider: Fields, fields: OwnedFields, preserveDecor: bool): Option<Fields> {
    if forall f <- FIELDS :: f in fields ==> Placed(fields[f], Lookup(provider, f), preserveDecor).Some?
    then Some((provider - FIELDS)
              + map f | f in FIELDS && f in fields :: Placed(fields[f], Lookup(provider, f), preserveDecor).value)
    else None
  }

  /** The table under `key`, made if it is missing; `None` when something else stands there. */
  function TableAt(fields: Fields, key: string): Option<Fields> {
    if key !in fields then Some(map[]) else if fields[key].Table? then Some(fields[key].fields) else None
  }

  /** Set the fields of one provider, making the tables on the way. */
  function SetProvider(root: Fields, key: string, fields: OwnedFields, preserveDecor: bool): Option<Fields> {
    match TableAt(root, PROVIDERS)
    case None => None
    case Some(providers) =>
      match TableAt(providers, key)
      case None => None
      case Some(provider) =>
        match Replaced(provider, fields, preserveDecor)
        case None => None
        case Some(replaced) => Some(root[PROVIDERS := Table(providers[key := Table(replaced)])])
  }

  function SetTop(root: Fields, key: string, encoded: Option<OwnedItem>, preserveDecor: bool): Option<Fields> {
    match encoded
    case None => Some(root - {key})
    case Some(value) =>
      match Placed(value, Lookup(root, key), preserveDecor)
      case None => None
      case Some(item) => Some(root[key := item])
  }

  // ---- reading

  function Provider(root: Fields, key: string): Option<Fields> {
    match Inner(root, PROVIDERS)
    case None => None
    case Some(providers) => Inner(providers, key)
  }

  /** `nested_item_text` for every owned field. */
  function CaptureFields(root: Fields, key: string): (r: OwnedFields)
    ensures r.Keys <= FIELDS && FaithfulFields(r)
  {
    match Provider(root, key)
    case None => map[]
    case Some(provider) => map f | f in FIELDS && f in provider && provider[f].IsValue() :: ItemText(Some(provider[f])).value
  }

  /** `capture_owned_for_key`; a table where a value belongs is a collision. */
  function Capture(root: Fields, key: string): (r: Option<Owned>)
    ensures r.Some? ==> r.value.Faithful() && r.value.key == key
  {
    if (MODEL in root && !root[MODEL].IsValue()) || (SELECTOR in root && !root[SELECTOR].IsValue()) then None
    else Some(Owned(key, ItemText(Lookup(root, MODEL)), ItemText(Lookup(root, SELECTOR)), CaptureFields(root, key)))
  }

  /** `unrelated_projection_for_key`. */
  function Unrelated(root: Fields, key: string): TreeFields {
    MeaningOf(DropEmpty(Clear(root - {MODEL, SELECTOR}, key)))
  }

  // ---- writing

  /** `apply_owned`, from one provider key to another. */
  function Applied(root: Fields, current: string, owned: Owned, preserveDecor: bool): Option<Fields> {
    var cleared := if current != owned.key && current != "" then Clear(root, current) else root;
    match SetTop(cleared, MODEL, owned.model, preserveDecor)
    case None => None
    case Some(modelled) =>
      match SetTop(modelled, SELECTOR, owned.selector, preserveDecor)
      case None => None
      case Some(selected) =>
        var provided :=
          if owned.key == "" then Some(selected)
          else if owned.fields != map[] then SetProvider(selected, owned.key, owned.fields, preserveDecor)
          else Some(Clear(selected, owned.key));
        match provided
        case None => None
        case Some(done) => Some(DropEmpty(done))
  }

  datatype ProviderRestore = Absent(key: string) | Present(key: string, fields: OwnedFields) | Unrepresentable(key: string)

  /** `apply_provider_restore`. */
  function Restored(root: Fields, restore: ProviderRestore): Option<Fields> {
    if restore.Unrepresentable? then None
    else if restore.Present? && restore.fields != map[] then SetProvider(root, restore.key, restore.fields, false)
    else Some(DropEmpty(Clear(root, restore.key)))
  }
}
