/** Whatever the parser accepts is spelt by the grammar, so reading is exactly spelling undone. */
module JsonReading {
  import opened Bytes
  import opened Json
  import opened JsonStability
  import opened JsonPrinter
  import opened JsonRoundTrip
  import opened JsonSpelling
  import opened JsonNumerals
  import opened JsonGrammar

  /** A stretch of the text stands where it was cut out. */
  lemma CutOccurs(b: Octets, i: nat, j: nat)
    requires i <= j <= |b|
    ensures Occurs(b, i, b[i..j])
  {
    OccursSlice(b, i, b[i..j]);
  }

  lemma Join3(b: Octets, i: nat, x: Octets, y: Octets, z: Octets)
    requires Occurs(b, i, x) && Occurs(b, i + |x|, y) && Occurs(b, i + |x| + |y|, z)
    ensures Occurs(b, i, x + y + z)
  {
    OccursSplit(b, i, x + y, z);
    OccursSplit(b, i, x, y);
  }

  lemma MarkOccurs(b: Octets, i: nat)
    requires i < |b|
    ensures Occurs(b, i, [b[i]])
  {
    CutOccurs(b, i, i + 1);
    assert b[i..i + 1] == [b[i]];
  }

  /** The white space that `SkipWhite` passes over. */
  lemma GapAt(b: Octets, i: nat) returns (gap: Octets)
    requires i <= |b|
    ensures White(gap) && Occurs(b, i, gap) && i + |gap| == SkipWhite(b, i)
  {
    gap := b[i..SkipWhite(b, i)];
    WhiteSkipped(gap);
    CutOccurs(b, i, SkipWhite(b, i));
  }

  lemma SpellWord(b: Octets, s: nat) returns (v: Spelling)
    requires s < |b| && ParseWord(b, s).Some?
    ensures Valid(v) && Occurs(b, s, Text(v)) && ParseWord(b, s) == Some((Meaning(v), s + |Text(v)|))
  {
    hide IsNumber, Occurs;
    Words();
    if StartsAt(b, s, TRUE) {
      v := Word("true");
    } else if StartsAt(b, s, FALSE) {
      v := Word("false");
    } else if StartsAt(b, s, NULL) {
      v := Word("null");
    } else {
      var numeral := SpellNumber(b[s..NumberEnd(b, s)]);
      v := Figure(numeral);
    }
    OccursSlice(b, s, Text(v));
  }

  lemma SpellQuoted(b: Octets, s: nat) returns (pieces: seq<Piece>)
    requires s < |b| && b[s] == QUOTE && ParseString(b, s + 1).Some?
    ensures ValidPieces(pieces) && Occurs(b, s, [QUOTE] + (PiecesText(pieces) + [QUOTE]))
    ensures ParseString(b, s + 1) == Some((PiecesMeaning(pieces), s + 2 + |PiecesText(pieces)|))
  {
    hide Occurs, PiecesText, PiecesMeaning, ParseString;
    pieces := SpellString(b, s + 1);
    MarkOccurs(b, s);
    OccursSplit(b, s, [QUOTE], PiecesText(pieces) + [QUOTE]);
  }

  lemma SpellEmpty(b: Octets, s: nat, close: byte) returns (gap: Octets)
    requires s < |b| && SkipWhite(b, s + 1) < |b| && b[SkipWhite(b, s + 1)] == close
    ensures White(gap) && Occurs(b, s, [b[s]] + gap + [close]) && s + 1 + |gap| == SkipWhite(b, s + 1)
  {
    hide Occurs, SkipWhite;
    gap := GapAt(b, s + 1);
    MarkOccurs(b, s);
    MarkOccurs(b, s + 1 + |gap|);
    Join3(b, s, [b[s]], gap, [close]);
  }

  lemma {:induction false} SpellValue(b: Octets, s: nat) returns (v: Spelling)
    requires s < |b| && ParseAt(b, s).Some?
    ensures Valid(v) && Occurs(b, s, Text(v)) && ParseAt(b, s) == Some((Meaning(v), s + |Text(v)|))
    decreases |b| - s, 0
  {
    hide Occurs, ParseString, ParseWord, ParseArray, ParseObject, PiecesText, PiecesMeaning;
    Marks();
    if b[s] == OPEN_BRACE {
      v := SpellObject(b, s);
    } else if b[s] == OPEN_BRACKET {
      v := SpellArray(b, s);
    } else if b[s] == QUOTE {
      var pieces := SpellQuoted(b, s);
      v := Quoted(pieces);
    } else {
      v := SpellWord(b, s);
    }
  }

  lemma {:induction false} SpellArray(b: Octets, s: nat) returns (v: Spelling)
    requires s < |b| && b[s] == OPEN_BRACKET && ParseArray(b, s + 1).Some?
    ensures Valid(v) && Occurs(b, s, Text(v)) && ParseArray(b, s + 1) == Some((Meaning(v), s + |Text(v)|))
    decreases |b| - s - 1, 5
  {
    hide Occurs, ParseItems, ItemsText, SkipWhite;
    Marks();
    if SkipWhite(b, s + 1) < |b| && b[SkipWhite(b, s + 1)] == CLOSE_BRACKET {
      var gap := SpellEmpty(b, s, CLOSE_BRACKET);
      v := EmptyList(gap);
    } else {
      var items := SpellItems(b, s + 1);
      v := List(items);
      MarkOccurs(b, s);
      OccursSplit(b, s, [OPEN_BRACKET], ItemsText(items) + [CLOSE_BRACKET]);
      assert Text(v) == [OPEN_BRACKET] + (ItemsText(items) + [CLOSE_BRACKET]);
    }
  }

  lemma {:induction false} SpellObject(b: Octets, s: nat) returns (v: Spelling)
    requires s < |b| && b[s] == OPEN_BRACE && ParseObject(b, s + 1).Some?
    ensures Valid(v) && Occurs(b, s, Text(v)) && ParseObject(b, s + 1) == Some((Meaning(v), s + |Text(v)|))
    decreases |b| - s - 1, 5
  {
    hide Occurs, ParseMembers, EntriesText, SkipWhite, FromMembers;
    Marks();
    if SkipWhite(b, s + 1) < |b| && b[SkipWhite(b, s + 1)] == CLOSE_BRACE {
      var gap := SpellEmpty(b, s, CLOSE_BRACE);
      v := EmptyRecord(gap);
    } else {
      var entries := SpellEntries(b, s + 1);
      v := Record(entries);
      LastCounts(entries);
      MarkOccurs(b, s);
      OccursSplit(b, s, [OPEN_BRACE], EntriesText(entries) + [CLOSE_BRACE]);
      assert Text(v) == [OPEN_BRACE] + (EntriesText(entries) + [CLOSE_BRACE]);
    }
  }

  lemma {:induction false} SpellItem(b: Octets, i: nat) returns (it: Item)
    requires i <= |b| && ParseValue(b, i).Some?
    ensures ValidItem(it) && Occurs(b, i, ItemText(it))
    ensures ParseValue(b, i) == Some((Meaning(it.value), i + |it.before| + |Text(it.value)|))
    ensures i + |ItemText(it)| == SkipWhite(b, ParseValue(b, i).value.1)
    decreases |b| - i, 1
  {
    hide Occurs, ParseAt, SkipWhite, Text, Meaning, Valid;
    var before := GapAt(b, i);
    var value := SpellValue(b, SkipWhite(b, i));
    var end := ParseValue(b, i).value.1;
    var after := GapAt(b, end);
    it := Item(before, value, after);
    Join3(b, i, before, Text(value), after);
  }

  lemma {:induction false} SpellItems(b: Octets, i: nat) returns (items: Items)
    requires i <= |b| && ParseItems(b, i).Some?
    ensures ValidItems(items) && Occurs(b, i, ItemsText(items) + [CLOSE_BRACKET])
    ensures ParseItems(b, i) == Some((ItemsMeaning(items), i + |ItemsText(items)| + 1))
    decreases |b| - i, 2
  {
    hide Occurs, ParseValue, SkipWhite, Text, Meaning, ItemText, Valid;
    Marks();
    var it := SpellItem(b, i);
    var text := ItemText(it);
    var next := i + |text|;
    MarkOccurs(b, next);
    if b[next] == CLOSE_BRACKET {
      items := Last(it);
      OccursSplit(b, i, text, [CLOSE_BRACKET]);
      assert ItemsMeaning(items) == [Meaning(it.value)];
    } else {
      var rest := SpellItems(b, next + 1);
      items := More(it, rest);
      Join3(b, i, text, [COMMA], ItemsText(rest) + [CLOSE_BRACKET]);
      MoreItems(it, rest);
    }
  }

  lemma SpellKey(b: Octets, i: nat) returns (before: Octets, key: seq<Piece>, after: Octets)
    requires i <= |b| && ParseKey(b, i).Some?
    ensures White(before) && ValidPieces(key) && White(after)
    ensures Occurs(b, i, before + [QUOTE] + (PiecesText(key) + [QUOTE]) + after + [COLON])
    ensures ParseKey(b, i) == Some((PiecesMeaning(key), i + |before| + 1 + |PiecesText(key)| + 1 + |after| + 1))
  {
    hide Occurs, PiecesText, PiecesMeaning, ParseString, SkipWhite;
    before := GapAt(b, i);
    var s := i + |before|;
    key := SpellString(b, s + 1);
    var text := PiecesText(key) + [QUOTE];
    after := GapAt(b, s + 1 + |text|);
    MarkOccurs(b, s);
    MarkOccurs(b, s + 1 + |text| + |after|);
    Join3(b, i, before, [QUOTE], text);
    Join3(b, i, before + [QUOTE] + text, after, [COLON]);
  }

  lemma {:induction false} SpellEntry(b: Octets, i: nat) returns (e: Entry)
    requires i <= |b| && ParseMember(b, i).Some?
    ensures ValidEntry(e) && Occurs(b, i, EntryText(e))
    ensures ParseMember(b, i) == Some((PiecesMeaning(e.key), Meaning(e.item.value), i + |EntryText(e)|))
    decreases |b| - i, 2
  {
    hide Occurs, ParseKey, ParseValue, PiecesText, PiecesMeaning, SkipWhite, Text, Meaning, ItemText, Valid;
    Marks();
    var before, key, after := SpellKey(b, i);
    var start := ParseKey(b, i).value.1;
    var it := SpellItem(b, start);
    e := Entry(before, key, after, it);
    OccursSplit(b, i, before + [QUOTE] + (PiecesText(key) + [QUOTE]) + after + [COLON], ItemText(it));
  }

  lemma {:induction false} SpellEntries(b: Octets, i: nat) returns (entries: Entries)
    requires i <= |b| && ParseMembers(b, i).Some?
    ensures ValidEntries(entries) && Occurs(b, i, EntriesText(entries) + [CLOSE_BRACE])
    ensures ParseMembers(b, i) == Some((EntriesMembers(entries), i + |EntriesText(entries)| + 1))
    decreases |b| - i, 3
  {
    hide Occurs, ParseMember, PiecesMeaning, SkipWhite, Text, Meaning, EntryText, Valid;
    Marks();
    var e := SpellEntry(b, i);
    var text := EntryText(e);
    var next := i + |text|;
    MarkOccurs(b, next);
    if b[next] == CLOSE_BRACE {
      entries := LastEntry(e);
      OccursSplit(b, i, text, [CLOSE_BRACE]);
      assert EntriesMembers(entries) == [(PiecesMeaning(e.key), Meaning(e.item.value))];
    } else {
      var rest := SpellEntries(b, next + 1);
      entries := MoreEntries(e, rest);
      Join3(b, i, text, [COMMA], EntriesText(rest) + [CLOSE_BRACE]);
      MoreMembers(e, rest);
    }
  }

  // ---- documents

  /** A text spells a value: the grammar has a spelling with this text and this meaning. */
  ghost predicate Spells(b: Octets, v: Value) {
    exists it: Item :: ValidItem(it) && ItemText(it) == b && Meaning(it.value) == v
  }

  /** However a document is spelt, it is read as what it means. */
  lemma DocumentSpelt(it: Item)
    requires ValidItem(it)
    ensures ParseDocument(ItemText(it)) == Some(Meaning(it.value))
  {
    hide Occurs, ParseAt, SkipWhite, Text, Meaning, Valid;
    var b := ItemText(it);
    CutOccurs(b, 0, |b|);
    assert b[0..|b|] == b;
    ItemSpelt(it, b, 0);
  }

  /** A text is read as a value exactly when it spells it. */
  lemma ReadIffSpelt(b: Octets, v: Value)
    ensures ParseDocument(b) == Some(v) <==> Spells(b, v)
  {
    hide ParseDocument, Text, Meaning, Valid, ItemText;
    if ParseDocument(b) == Some(v) {
      var it := SpellDocument(b);
      assert Spells(b, v);
    }
    if Spells(b, v) {
      var it: Item :| ValidItem(it) && ItemText(it) == b && Meaning(it.value) == v;
      DocumentSpelt(it);
    }
  }

  lemma SpellDocument(b: Octets) returns (it: Item)
    requires ParseDocument(b).Some?
    ensures ValidItem(it) && ItemText(it) == b && Some(Meaning(it.value)) == ParseDocument(b)
  {
    hide Occurs, ParseValue, SkipWhite, Text, Meaning, Valid, ItemText;
    it := SpellItem(b, 0);
    OccursSlice(b, 0, ItemText(it));
  }
}
