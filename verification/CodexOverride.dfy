/**
  Repeated applications of a Codex state: a later one overrides an earlier one, and applying what
  was captured restores the document, empty tables aside, exactly when the captured fields were values.
*/
module CodexOverride {
  import opened Bytes
  import opened CodexDocument
  import opened CodexApply
  import opened CodexLaws

  // ---- the edits seen from the providers item alone

  function ItemFields(item: Option<Item>): Option<Fields> {
    if item.Some? && item.value.TableLike() then Some(item.value.fields) else None
  }

  function ClearItem(item: Option<Item>, key: string): Option<Item> {
    match ItemFields(item)
    case None => item
    case Some(providers) => Some(item.value.(fields := ClearProvider(providers, key)))
  }

  function DropItem(item: Option<Item>): Option<Item> {
    if ItemFields(item) == Some(map[]) then None else item
  }

  /** The table an item stands for, `None` standing for one yet to be made. */
  function TableOf(item: Option<Item>): Option<Fields> {
    match item
    case None => Some(map[])
    case Some(there) => if there.Table? then Some(there.fields) else None
  }

  lemma ClearSeen(root: Fields, key: string)
    ensures Lookup(Clear(root, key), PROVIDERS) == ClearItem(Lookup(root, PROVIDERS), key)
    ensures forall k :: k != PROVIDERS ==> Lookup(Clear(root, key), k) == Lookup(root, k)
  {
    hide ClearProvider;
  }

  lemma DropSeen(root: Fields)
    ensures Lookup(DropEmpty(root), PROVIDERS) == DropItem(Lookup(root, PROVIDERS))
    ensures forall k :: k != PROVIDERS ==> Lookup(DropEmpty(root), k) == Lookup(root, k)
  {}

  /** The providers item after setting the fields of one provider in the tables given. */
  function SetItem(providers: Fields, key: string, provider: Fields, fields: OwnedFields): Option<Item> {
    match Replaced(provider, fields, false)
    case None => None
    case Some(replaced) => Some(Table(providers[key := Table(replaced)]))
  }

  lemma SetSeen(root: Fields, key: string, fields: OwnedFields, done: Fields)
    requires SetProvider(root, key, fields, false) == Some(done)
    ensures TableOf(Lookup(root, PROVIDERS)).Some?
    ensures TableAt(TableOf(Lookup(root, PROVIDERS)).value, key).Some?
    ensures var providers := TableOf(Lookup(root, PROVIDERS)).value;
            Lookup(done, PROVIDERS) == SetItem(providers, key, TableAt(providers, key).value, fields)
    ensures forall k :: k != PROVIDERS ==> Lookup(done, k) == Lookup(root, k)
  {
    hide Replaced;
  }

  /** Without kept decor, what a provider becomes depends only on its other fields. */
  lemma ReplacedIgnoresOwned(a: Fields, b: Fields, fields: OwnedFields)
    requires a - FIELDS == b - FIELDS
    ensures Replaced(a, fields, false) == Replaced(b, fields, false)
  {
    hide FIELDS;
    if Replaced(a, fields, false).Some? {
      var left, right := Replaced(a, fields, false).value, Replaced(b, fields, false).value;
      forall f ensures Lookup(left, f) == Lookup(right, f) {}
      SameLookups(left, right);
    }
  }

  // ---- what one application did, seen from the providers item

  /** The providers item after applying `owned` under its own key. */
  function AppliedItem(item: Option<Item>, owned: Owned): Option<Option<Item>> {
    if owned.fields == map[] then Some(DropItem(ClearItem(item, owned.key)))
    else
      match TableOf(item)
      case None => None
      case Some(providers) =>
        match TableAt(providers, owned.key)
        case None => None
        case Some(provider) => Some(DropItem(SetItem(providers, owned.key, provider, owned.fields)))
  }

  lemma AppliedSeen(root: Fields, owned: Owned, r: Fields)
    requires Applied(root, owned.key, owned, false) == Some(r) && owned.Faithful() && owned.key != ""
    ensures AppliedItem(Lookup(root, PROVIDERS), owned) == Some(Lookup(r, PROVIDERS))
    ensures ItemText(Lookup(r, MODEL)) == owned.model && ItemText(Lookup(r, SELECTOR)) == owned.selector
    ensures Lookup(r, MODEL).Some? <==> owned.model.Some?
    ensures Lookup(r, SELECTOR).Some? <==> owned.selector.Some?
    ensures forall k :: k != MODEL && k != SELECTOR && k != PROVIDERS ==> Lookup(r, k) == Lookup(root, k)
  {
    hide Applied, SetProvider, Clear, DropEmpty, ClearItem, DropItem, SetItem, TableOf, TableAt, FIELDS;
    var selected, done := AppliedSteps(root, owned.key, owned, false, r);
    assert Lookup(selected, PROVIDERS) == Lookup(root, PROVIDERS);
    if owned.fields != map[] {
      SetSeen(selected, owned.key, owned.fields, done);
    } else {
      ClearSeen(selected, owned.key);
    }
    DropSeen(done);
  }

  // ---- a later application overrides an earlier one

  /** Clearing after clearing, or after setting, is clearing. */
  lemma ClearAgain(item: Option<Item>, first: Owned, next: Option<Item>)
    requires AppliedItem(item, first) == Some(next) && first.Faithful()
    ensures DropItem(ClearItem(next, first.key)) == DropItem(ClearItem(item, first.key))
  {
    hide Placed;
    if first.fields == map[] {
      ClearClearedItem(item, first.key);
    } else {
      var providers := TableOf(item).value;
      var provider := TableAt(providers, first.key).value;
      ReplacedHolds(provider, first.fields, false);
      ClearSetItem(item, providers, provider, first);
    }
  }

  lemma ClearClearedItem(item: Option<Item>, key: string)
    ensures DropItem(ClearItem(DropItem(ClearItem(item, key)), key)) == DropItem(ClearItem(item, key))
  {
    if ItemFields(item).Some? {
      ClearClearedProvider(ItemFields(item).value, key);
    }
  }

  lemma ClearClearedProvider(providers: Fields, key: string)
    ensures ClearProvider(ClearProvider(providers, key), key) == ClearProvider(providers, key)
  {
    if Inner(providers, key).Some? {
      var rest := Inner(providers, key).value - FIELDS;
      assert rest - FIELDS == rest;
    }
  }

  lemma ReplacedRest(provider: Fields, fields: OwnedFields)
    requires Replaced(provider, fields, false).Some?
    ensures Replaced(provider, fields, false).value - FIELDS == provider - FIELDS
  {
    hide Placed, FIELDS;
    var left, right := Replaced(provider, fields, false).value - FIELDS, provider - FIELDS;
    forall f ensures Lookup(left, f) == Lookup(right, f) {}
    SameLookups(left, right);
  }

  lemma ClearSetItem(item: Option<Item>, providers: Fields, provider: Fields, first: Owned)
    requires TableOf(item) == Some(providers) && TableAt(providers, first.key) == Some(provider)
    requires Replaced(provider, first.fields, false).Some?
    ensures DropItem(ClearItem(DropItem(SetItem(providers, first.key, provider, first.fields)), first.key))
            == DropItem(ClearItem(item, first.key))
  {
    hide Replaced, FIELDS;
    var replaced := Replaced(provider, first.fields, false).value;
    ReplacedRest(provider, first.fields);
    var set1 := providers[first.key := Table(replaced)];
    assert set1 != map[] by {
      assert first.key in set1;
    }
    assert ClearProvider(set1, first.key) == ClearProvider(providers, first.key) by {
      var left, right := ClearProvider(set1, first.key), ClearProvider(providers, first.key);
      forall k ensures Lookup(left, k) == Lookup(right, k) {}
      SameLookups(left, right);
    }
  }

  /** The tables found after the first application are those found before it, owned fields aside. */
  lemma TablesAfter(item: Option<Item>, first: Owned, next: Option<Item>, providers: Fields, provider: Fields)
    requires AppliedItem(item, first) == Some(next) && first.Faithful()
    requires TableOf(item) == Some(providers) && TableAt(providers, first.key) == Some(provider)
    ensures TableOf(next).Some? && TableAt(TableOf(next).value, first.key).Some?
    ensures TableOf(next).value - {first.key} == providers - {first.key}
    ensures TableAt(TableOf(next).value, first.key).value - FIELDS == provider - FIELDS
  {
    hide Replaced, FIELDS;
    if first.fields == map[] {
      assert ItemFields(next).Some? ==> ItemFields(next).value == ClearProvider(providers, first.key);
      var rest := provider - FIELDS;
      assert rest - FIELDS == rest;
    } else {
      ReplacedHolds(provider, first.fields, false);
      ReplacedRest(provider, first.fields);
      var set1 := providers[first.key := Table(Replaced(provider, first.fields, false).value)];
      assert first.key in set1;
      assert set1 - {first.key} == providers - {first.key};
    }
  }

  /** Applying twice under one key is applying the second. */
  lemma ApplyOverrides(root: Fields, first: Owned, second: Owned, once: Fields, twice: Fields, direct: Fields)
    requires first.Faithful() && second.Faithful() && first.key == second.key != ""
    requires Applied(root, first.key, first, false) == Some(once)
    requires Applied(once, second.key, second, false) == Some(twice)
    requires Applied(root, second.key, second, false) == Some(direct)
    ensures twice == direct
  {
    hide Applied, DropItem, ClearItem, SetItem, FIELDS, Replaced, ItemText;
    AppliedSeen(root, first, once);
    AppliedSeen(once, second, twice);
    AppliedSeen(root, second, direct);
    var item, next := Lookup(root, PROVIDERS), Lookup(once, PROVIDERS);
    if second.fields == map[] {
      ClearAgain(item, first, next);
    } else {
      var providers := TableOf(item).value;
      var provider := TableAt(providers, second.key).value;
      TablesAfter(item, first, next, providers, provider);
      SameSet(providers, provider, TableOf(next).value, TableAt(TableOf(next).value, second.key).value, second);
    }
    SameTop(root, second, twice, direct);
  }

  lemma SameSet(p: Fields, a: Fields, q: Fields, b: Fields, owned: Owned)
    requires p - {owned.key} == q - {owned.key} && a - FIELDS == b - FIELDS
    ensures SetItem(p, owned.key, a, owned.fields) == SetItem(q, owned.key, b, owned.fields)
  {
    hide Replaced, FIELDS;
    ReplacedIgnoresOwned(a, b, owned.fields);
    if Replaced(a, owned.fields, false).Some? {
      var t := Table(Replaced(a, owned.fields, false).value);
      var left, right := p[owned.key := t], q[owned.key := t];
      forall k ensures Lookup(left, k) == Lookup(right, k) {
        assert Lookup(p - {owned.key}, k) == Lookup(q - {owned.key}, k);
      }
      SameLookups(left, right);
    }
  }

  /** Two results of the same application that agree on the providers are equal. */
  lemma SameTop(root: Fields, owned: Owned, a: Fields, b: Fields)
    requires Lookup(a, PROVIDERS) == Lookup(b, PROVIDERS)
    requires ItemText(Lookup(a, MODEL)) == owned.model == ItemText(Lookup(b, MODEL))
    requires ItemText(Lookup(a, SELECTOR)) == owned.selector == ItemText(Lookup(b, SELECTOR))
    requires Lookup(a, MODEL).Some? <==> owned.model.Some?
    requires Lookup(b, MODEL).Some? <==> owned.model.Some?
    requires Lookup(a, SELECTOR).Some? <==> owned.selector.Some?
    requires Lookup(b, SELECTOR).Some? <==> owned.selector.Some?
    requires forall k :: k != MODEL && k != SELECTOR && k != PROVIDERS ==> Lookup(a, k) == Lookup(b, k)
    ensures a == b
  {
    forall k ensures Lookup(a, k) == Lookup(b, k) {}
    SameLookups(a, b);
  }

  // ---- applying what was captured

  /** Every owned field of the provider is a value; a sub-table would not be captured. */
  predicate AllValues(root: Fields, key: string) {
    Provider(root, key).Some? ==>
      forall f <- FIELDS :: f in Provider(root, key).value ==> Provider(root, key).value[f].IsValue()
  }

  /** The document without empty tables at the provider and above it. */
  function Normal(root: Fields, key: string): Fields {
    if Provider(root, key) == Some(map[])
    then DropEmpty(WithInner(root, PROVIDERS, Inner(root, PROVIDERS).value - {key}))
    else DropEmpty(root)
  }

  lemma NormalSeen(root: Fields, key: string)
    ensures Lookup(Normal(root, key), PROVIDERS) == DropItem(NormalItem(Lookup(root, PROVIDERS), key))
    ensures forall k :: k != PROVIDERS ==> Lookup(Normal(root, key), k) == Lookup(root, k)
  {}

  function NormalItem(item: Option<Item>, key: string): Option<Item> {
    match ItemFields(item)
    case None => item
    case Some(providers) =>
      if Inner(providers, key) == Some(map[]) then Some(item.value.(fields := providers - {key})) else item
  }

  /** `captured` is what capturing the fields of this provider gives. */
  ghost predicate CapturesFrom(captured: OwnedFields, provider: Fields) {
    captured == map f | f in FIELDS && f in provider && provider[f].IsValue() :: ItemText(Some(provider[f])).value
  }

  lemma CapturedReplaced(provider: Fields, captured: OwnedFields)
    requires CapturesFrom(captured, provider)
    ensures Replaced(provider, captured, false).Some?
    ensures Replaced(provider, captured, false).value == provider
            <==> forall f <- FIELDS :: f in provider ==> provider[f].IsValue()
    ensures forall f <- FIELDS :: f in Replaced(provider, captured, false).value <==> f in captured
  {
    hide FIELDS, Meaning;
    var r := Replaced(provider, captured, false).value;
    if forall f <- FIELDS :: f in provider ==> provider[f].IsValue() {
      forall f ensures Lookup(r, f) == Lookup(provider, f) {}
      SameLookups(r, provider);
    } else {
      var f :| f in FIELDS && f in provider && !provider[f].IsValue();
      assert f !in r;
    }
  }

  /**
    Putting the captured state back restores the document up to empty tables exactly when every
    owned field was a value: a field written as a sub-table is neither captured nor put back.
  */
  lemma ApplyCaptured(root: Fields, key: string, owned: Owned, r: Fields)
    requires Capture(root, key) == Some(owned) && key != "" && Applied(root, key, owned, false) == Some(r)
    ensures r == Normal(root, key) <==> AllValues(root, key)
  {
    hide Applied, DropItem, ClearItem, SetItem, FIELDS, Normal, NormalItem, CaptureFields, DropEmpty;
    AppliedSeen(root, owned, r);
    NormalSeen(root, key);
    var item := Lookup(root, PROVIDERS);
    CapturedItem(root, key, owned);
    if AllValues(root, key) {
      forall k ensures Lookup(r, k) == Lookup(Normal(root, key), k) {}
      SameLookups(r, Normal(root, key));
    }
  }

  lemma CapturedItem(root: Fields, key: string, owned: Owned)
    requires owned.key == key && owned.fields == CaptureFields(root, key)
    ensures var item := Lookup(root, PROVIDERS);
            AppliedItem(item, owned).Some? ==>
              (AppliedItem(item, owned).value == DropItem(NormalItem(item, key)) <==> AllValues(root, key))
  {
    hide FIELDS, DropItem, NormalItem, SetItem, ClearItem;
    var item := Lookup(root, PROVIDERS);
    if Provider(root, key).None? {
      NothingCaptured(item, key);
    } else {
      var providers, provider := ItemFields(item).value, Provider(root, key).value;
      assert CapturesFrom(owned.fields, provider);
      if owned.fields == map[] {
        NoValuesCaptured(item, key, providers, provider);
      } else if AppliedItem(item, owned).Some? {
        ValuesCaptured(item, key, providers, provider, owned.fields);
      }
    }
  }

  lemma NothingCaptured(item: Option<Item>, key: string)
    requires ItemFields(item).Some? ==> Inner(ItemFields(item).value, key).None?
    ensures ClearItem(item, key) == item == NormalItem(item, key)
  {}

  lemma NoValuesCaptured(item: Option<Item>, key: string, providers: Fields, provider: Fields)
    requires ItemFields(item) == Some(providers) && Inner(providers, key) == Some(provider)
    requires CapturesFrom(map[], provider)
    ensures DropItem(ClearItem(item, key)) == DropItem(NormalItem(item, key))
            <==> forall f <- FIELDS :: f in provider ==> provider[f].IsValue()
  {
    hide FIELDS;
    var captured: OwnedFields := map[];
    assert forall f <- FIELDS :: f in provider && provider[f].IsValue() ==> f in captured;
    var rest := provider - FIELDS;
    if forall f <- FIELDS :: f in provider ==> provider[f].IsValue() {
      assert rest == provider;
      assert WithInner(providers, key, rest) == providers;
    } else {
      var f :| f in FIELDS && f in provider && !provider[f].IsValue();
      assert f in provider && f !in rest && key in providers;
      assert Inner(WithInner(providers, key, rest), key) == Some(rest);
    }
  }

  lemma ValuesCaptured(item: Option<Item>, key: string, providers: Fields, provider: Fields, captured: OwnedFields)
    requires ItemFields(item) == Some(providers) && Inner(providers, key) == Some(provider)
    requires TableOf(item) == Some(providers) && TableAt(providers, key) == Some(provider)
    requires CapturesFrom(captured, provider) && captured != map[]
    ensures DropItem(SetItem(providers, key, provider, captured)) == DropItem(NormalItem(item, key))
            <==> forall f <- FIELDS :: f in provider ==> provider[f].IsValue()
  {
    hide FIELDS, Replaced;
    CapturedReplaced(provider, captured);
    var replaced := Replaced(provider, captured, false).value;
    var f :| f in captured;
    assert f in provider && key in providers;
    var done := providers[key := Table(replaced)];
    assert Inner(done, key) == Some(replaced);
    if replaced == provider {
      assert done == providers;
    }
  }

  /** Such a document: the headers of provider `p` written as a table of their own. */
  lemma SubTableIsLost() returns (root: Fields, owned: Owned, r: Fields)
    ensures Capture(root, "p") == Some(owned) && Applied(root, "p", owned, false) == Some(r)
    ensures !AllValues(root, "p") && r != Normal(root, "p")
  {
    var provider: Fields := map["http_headers" := Table(map[])];
    root := map[PROVIDERS := Table(map["p" := Table(provider)])];
    assert Provider(root, "p") == Some(provider);
    assert "http_headers" in FIELDS && !provider["http_headers"].IsValue();
    owned := Capture(root, "p").value;
    assert owned.fields == map[];
    r := Applied(root, "p", owned, false).value;
    ApplyCaptured(root, "p", owned, r);
  }
}
