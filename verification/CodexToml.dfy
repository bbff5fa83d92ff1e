/**
  Reading and printing TOML, as far as it is needed: which documents a text can hold at all, and that
  every edit of a document that was read leaves one that can be printed and read back.
*/
module CodexToml {
  import opened Bytes
  import opened CodexDocument

  /** Where a value stands: on a line of its own, in an inline table, or in an array. */
  datatype Place = Line | Entry | Element

  /**
    The given part of TOML. `atomOf` is what a literal means, `fits` which white space and comments may
    stand around a value, and `write` the serialiser of a single value, which refuses some.
  */
  datatype Toml = Toml(
    parse: Octets -> Option<Fields>,
    format: Fields -> Octets,
    atomOf: string -> Option<Atom>,
    fits: (Decor, Place) -> bool,
    write: Tree -> Option<Item>)
  {
    predicate PrintableValue(item: Item, place: Place) {
      match item
      case Scalar(decor, literal, atom) => fits(decor, place) && atomOf(literal) == Some(atom)
      case Array(decor, items) =>
        fits(decor, place) && forall i :: 0 <= i < |items| ==> PrintableValue(items[i], Element)
      case Inline(decor, fields) => fits(decor, place) && forall k <- fields :: PrintableValue(fields[k], Entry)
      case _ => false
    }

    /** An item that some lines of text can hold; an empty array of tables has no text. */
    predicate PrintableItem(item: Item) {
      match item
      case Table(fields) => forall k <- fields :: PrintableItem(fields[k])
      case Tables(tables) => tables != [] && forall i :: 0 <= i < |tables| ==> tables[i].Table? && PrintableItem(tables[i])
      case _ => PrintableValue(item, Line)
    }

    predicate Printable(fields: Fields) { forall k <- fields :: PrintableItem(fields[k]) }

    /**
      What is relied on: the empty text is the empty document, what is read can be printed, what can be
      printed is read back, and what the serialiser writes has the meaning it was given.
    */
    ghost predicate Lawful() {
      && parse([]) == Some(map[])
      && (forall b :: parse(b).Some? ==> Printable(parse(b).value))
      && (forall root :: Printable(root) ==> parse(format(root)) == Some(root))
      && Writes()
    }

    ghost predicate Writes() {
      forall tree :: write(tree).Some? ==>
        var item := write(tree).value; item.IsValue() && Meaning(item) == tree && PrintableValue(item, Line)
    }

    // ---- owned states

    predicate PrintableText(encoded: OwnedItem) { encoded.rendered.Rendered? ==> PrintableItem(encoded.rendered.item) }

    /** The stored texts are texts of values; texts that parse are. */
    predicate PrintableOwned(owned: Owned) {
      && (owned.model.Some? ==> PrintableText(owned.model.value))
      && (owned.selector.Some? ==> PrintableText(owned.selector.value))
      && PrintableTexts(owned.fields)
    }

    predicate PrintableTexts(fields: OwnedFields) { forall f <- fields :: PrintableText(fields[f]) }

    predicate PrintableRestore(restore: ProviderRestore) { restore.Present? ==> PrintableTexts(restore.fields) }

    // ---- what edits keep

    lemma PlacedPrintable(encoded: OwnedItem, prior: Option<Item>, preserveDecor: bool)
      requires PrintableText(encoded) && (prior.Some? ==> PrintableItem(prior.value))
      ensures var r := Placed(encoded, prior, preserveDecor); r.Some? ==> PrintableItem(r.value)
    {}

    lemma SetTopPrintable(root: Fields, key: string, encoded: Option<OwnedItem>, preserveDecor: bool)
      requires Printable(root) && (encoded.Some? ==> PrintableText(encoded.value))
      ensures var r := SetTop(root, key, encoded, preserveDecor); r.Some? ==> Printable(r.value)
    {
      hide Placed, PrintableItem, PrintableText;
      if encoded.Some? {
        PlacedPrintable(encoded.value, Lookup(root, key), preserveDecor);
      }
    }

    /** Some of the fields of a table, or of an inline table at its place. */
    lemma FewerPrintable(item: Item, inner: Fields)
      requires item.TableLike() && forall k <- inner :: k in item.fields && inner[k] == item.fields[k]
      ensures PrintableItem(item) ==> PrintableItem(item.(fields := inner))
      ensures PrintableValue(item, Entry) ==> PrintableValue(item.(fields := inner), Entry)
    {}

    /** Clearing a provider in a table, or in an inline table. */
    lemma ClearProviderPrintable(providers: Item, key: string)
      requires providers.TableLike() && PrintableItem(providers)
      ensures PrintableItem(providers.(fields := ClearProvider(providers.fields, key)))
    {
      hide FIELDS;
      var fields := providers.fields;
      if Inner(fields, key).Some? {
        var rest := fields[key].fields - FIELDS;
        FewerPrintable(fields[key], rest);
        FewerPrintable(providers, fields - {key});
        if providers.Table? {
          assert forall k <- WithInner(fields, key, rest) :: PrintableItem(WithInner(fields, key, rest)[k]);
        } else {
          assert forall k <- WithInner(fields, key, rest) :: PrintableValue(WithInner(fields, key, rest)[k], Entry);
        }
      }
    }

    lemma ClearPrintable(root: Fields, key: string)
      requires Printable(root)
      ensures Printable(Clear(root, key)) && Printable(DropEmpty(Clear(root, key))) && Printable(DropEmpty(root))
    {
      hide ClearProvider, PrintableItem;
      if Inner(root, PROVIDERS).Some? {
        ClearProviderPrintable(root[PROVIDERS], key);
      }
    }

    lemma TablePrintable(fields: Fields, key: string)
      requires Printable(fields) && TableAt(fields, key).Some?
      ensures Printable(TableAt(fields, key).value)
    {
      if key in fields {
        assert PrintableItem(fields[key]);
      }
    }

    lemma SetProviderPrintable(root: Fields, key: string, fields: OwnedFields, preserveDecor: bool)
      requires Printable(root) && PrintableTexts(fields)
      ensures var r := SetProvider(root, key, fields, preserveDecor); r.Some? ==> Printable(r.value)
    {
      hide Replaced, PrintableTexts;
      var r := SetProvider(root, key, fields, preserveDecor);
      if r.Some? {
        var providers := TableAt(root, PROVIDERS).value;
        var provider := TableAt(providers, key).value;
        var replaced := Replaced(provider, fields, preserveDecor).value;
        TablePrintable(root, PROVIDERS);
        TablePrintable(providers, key);
        ReplacedPrintable(provider, fields, preserveDecor);
        assert PrintableItem(Table(replaced));
        assert PrintableItem(Table(providers[key := Table(replaced)]));
      }
    }

    lemma ReplacedPrintable(provider: Fields, fields: OwnedFields, preserveDecor: bool)
      requires Printable(provider) && PrintableTexts(fields)
      ensures var r := Replaced(provider, fields, preserveDecor); r.Some? ==> Printable(r.value)
    {
      hide Placed, PrintableItem, PrintableText, FIELDS;
      var r := Replaced(provider, fields, preserveDecor);
      if r.Some? {
        forall f | f in r.value ensures PrintableItem(r.value[f]) {
          if f in FIELDS && f in fields {
            PlacedPrintable(fields[f], Lookup(provider, f), preserveDecor);
          }
        }
      }
    }

    lemma AppliedPrintable(root: Fields, current: string, owned: Owned, preserveDecor: bool)
      requires Printable(root) && PrintableOwned(owned)
      ensures var r := Applied(root, current, owned, preserveDecor); r.Some? ==> Printable(r.value)
    {
      hide SetTop, SetProvider, Clear, DropEmpty, Printable, PrintableText, PrintableTexts;
      if Applied(root, current, owned, preserveDecor).Some? {
        ClearPrintable(root, current);
        var cleared := if current != owned.key && current != "" then Clear(root, current) else root;
        SetTopPrintable(cleared, MODEL, owned.model, preserveDecor);
        var modelled := SetTop(cleared, MODEL, owned.model, preserveDecor).value;
        SetTopPrintable(modelled, SELECTOR, owned.selector, preserveDecor);
        var selected := SetTop(modelled, SELECTOR, owned.selector, preserveDecor).value;
        ClearPrintable(selected, owned.key);
        SetProviderPrintable(selected, owned.key, owned.fields, preserveDecor);
        if owned.key != "" && owned.fields != map[] {
          ClearPrintable(SetProvider(selected, owned.key, owned.fields, preserveDecor).value, owned.key);
        }
      }
    }

    lemma RestoredPrintable(root: Fields, restore: ProviderRestore)
      requires Printable(root) && PrintableRestore(restore)
      ensures var r := Restored(root, restore); r.Some? ==> Printable(r.value)
    {
      hide SetProvider, Clear, DropEmpty, Printable, PrintableTexts;
      ClearPrintable(root, restore.key);
      if restore.Present? {
        SetProviderPrintable(root, restore.key, restore.fields, false);
      }
    }

    // ---- what captures yield

    /** The owned fields of this provider are written so that they could stand on lines of their own. */
    predicate OnLines(root: Fields, key: string) {
      Provider(root, key).Some? ==>
        forall f <- FIELDS :: f in Provider(root, key).value && Provider(root, key).value[f].IsValue()
                              ==> fits(Provider(root, key).value[f].decor, Line)
    }

    /** A value that can be printed somewhere can be printed on a line exactly when what surrounds it fits there. */
    lemma ValueOnLine(item: Item, place: Place)
      requires PrintableValue(item, place)
      ensures PrintableItem(item) <==> fits(item.decor, Line)
    {}

    /** The entries of a table, or of an inline table at either place. */
    lemma EntriesPrintable(item: Item, place: Place, key: string)
      requires item.TableLike() && (PrintableItem(item) || PrintableValue(item, place)) && key in item.fields
      ensures PrintableItem(item.fields[key]) || PrintableValue(item.fields[key], Entry)
    {}

    /**
      The texts captured from a document that was read parse back to what they were taken from exactly
      when they can stand on lines of their own; those of ordinary tables and of inline tables on one
      line always can.
    */
    lemma CapturePrintable(root: Fields, key: string)
      requires Printable(root)
      ensures PrintableTexts(CaptureFields(root, key)) <==> OnLines(root, key)
      ensures Capture(root, key).Some? ==> (PrintableOwned(Capture(root, key).value) <==> OnLines(root, key))
    {
      hide PrintableItem, PrintableValue, Meaning, FIELDS;
      if Provider(root, key).Some? {
        var providers := root[PROVIDERS];
        var provider := providers.fields[key];
        EntriesPrintable(providers, Entry, key);
        forall f | f in FIELDS && f in provider.fields && provider.fields[f].IsValue()
          ensures PrintableItem(provider.fields[f]) <==> fits(provider.fields[f].decor, Line)
        {
          EntriesPrintable(provider, Entry, f);
          FieldOnLine(provider.fields[f]);
        }
        var captured := CaptureFields(root, key);
        forall f ensures f in captured <==> f in FIELDS && f in provider.fields && provider.fields[f].IsValue() {}
      }
    }

    lemma FieldOnLine(item: Item)
      requires item.IsValue() && (PrintableItem(item) || PrintableValue(item, Entry))
      ensures PrintableItem(item) <==> fits(item.decor, Line)
    {
      ValueOnLine(item, if PrintableItem(item) then Line else Entry);
    }
  }
}
