/**
  Whole JSON documents, spelt in any way the grammar of RFC 8259 allows. A text is read as a value
  exactly when one of its spellings means that value.
*/
module JsonGrammar {
  import opened Bytes
  import opened Json
  import opened JsonStability
  import opened JsonPrinter
  import opened JsonRoundTrip
  import opened JsonSpelling
  import opened JsonNumerals

  datatype Spelling =
    | Word(word: string)
    | Figure(numeral: Numeral)
    | Quoted(pieces: seq<Piece>)
    | EmptyList(gap: Octets)
    | List(items: Items)
    | EmptyRecord(gap: Octets)
    | Record(entries: Entries)

  /** A value with the white space around it. */
  datatype Item = Item(before: Octets, value: Spelling, after: Octets)

  datatype Items = Last(item: Item) | More(item: Item, rest: Items)

  /** A key with the white space around it, and what follows the colon. */
  datatype Entry = Entry(before: Octets, key: seq<Piece>, after: Octets, item: Item)

  datatype Entries = LastEntry(entry: Entry) | MoreEntries(entry: Entry, rest: Entries)

  predicate White(gap: Octets) { forall k :: 0 <= k < |gap| ==> (gap[k] as int as char) in " \t\n\r" }

  ghost predicate Valid(v: Spelling) {
    match v
    case Word(word) => word in ["null", "true", "false"]
    case Figure(numeral) => ValidNumeral(numeral)
    case Quoted(pieces) => ValidPieces(pieces)
    case EmptyList(gap) => White(gap)
    case List(items) => ValidItems(items)
    case EmptyRecord(gap) => White(gap)
    case Record(entries) => ValidEntries(entries)
  }

  ghost predicate ValidItem(it: Item) { White(it.before) && Valid(it.value) && White(it.after) }

  ghost predicate ValidItems(items: Items) { ValidItem(items.item) && (items.More? ==> ValidItems(items.rest)) }

  ghost predicate ValidEntry(e: Entry) { White(e.before) && ValidPieces(e.key) && White(e.after) && ValidItem(e.item) }

  ghost predicate ValidEntries(entries: Entries) {
    ValidEntry(entries.entry) && (entries.MoreEntries? ==> ValidEntries(entries.rest))
  }

  ghost function Text(v: Spelling): Octets
    requires Valid(v)
  {
    match v
    case Word(word) => Ascii(word)
    case Figure(numeral) => NumeralText(numeral)
    case Quoted(pieces) => Ascii("\"") + (PiecesText(pieces) + Ascii("\""))
    case EmptyList(gap) => Ascii("[") + gap + Ascii("]")
    case List(items) => Ascii("[") + ItemsText(items) + Ascii("]")
    case EmptyRecord(gap) => Ascii("{") + gap + Ascii("}")
    case Record(entries) => Ascii("{") + EntriesText(entries) + Ascii("}")
  }

  ghost function ItemText(it: Item): Octets
    requires ValidItem(it)
  {
    it.before + Text(it.value) + it.after
  }

  ghost function ItemsText(items: Items): Octets
    requires ValidItems(items)
  {
    if items.Last? then ItemText(items.item) else ItemText(items.item) + Ascii(",") + ItemsText(items.rest)
  }

  ghost function EntryText(e: Entry): Octets
    requires ValidEntry(e)
  {
    e.before + Ascii("\"") + (PiecesText(e.key) + Ascii("\"")) + e.after + Ascii(":") + ItemText(e.item)
  }

  ghost function EntriesText(entries: Entries): Octets
    requires ValidEntries(entries)
  {
    if entries.LastEntry? then EntryText(entries.entry)
    else EntryText(entries.entry) + Ascii(",") + EntriesText(entries.rest)
  }

  ghost function Meaning(v: Spelling): Value
    requires Valid(v)
  {
    match v
    case Word(word) => if word == "null" then Null else Bool(word == "true")
    case Figure(numeral) => Number(NumeralText(numeral))
    case Quoted(pieces) => Str(PiecesMeaning(pieces))
    case EmptyList(_) => Array([])
    case List(items) => Array(ItemsMeaning(items))
    case EmptyRecord(_) => Object(map[])
    case Record(entries) => Object(EntriesMeaning(entries))
  }

  ghost function ItemsMeaning(items: Items): seq<Value>
    requires ValidItems(items)
  {
    assert ValidItem(items.item);
    [Meaning(items.item.value)] + if items.Last? then [] else ItemsMeaning(items.rest)
  }

  /** Of several equal keys the last one counts. */
  ghost function EntriesMeaning(entries: Entries): map<Octets, Value>
    requires ValidEntries(entries)
  {
    assert ValidEntry(entries.entry) && ValidItem(entries.entry.item);
    map[PiecesMeaning(entries.entry.key) := Meaning(entries.entry.item.value)]
    + if entries.LastEntry? then map[] else EntriesMeaning(entries.rest)
  }

  /** The entries in the order they are read. */
  ghost function EntriesMembers(entries: Entries): (r: Members)
    requires ValidEntries(entries)
    ensures r != []
  {
    assert ValidEntry(entries.entry) && ValidItem(entries.entry.item);
    [(PiecesMeaning(entries.entry.key), Meaning(entries.entry.item.value))]
    + if entries.LastEntry? then [] else EntriesMembers(entries.rest)
  }

  // ---- every spelling is read as what it means

  lemma Marks()
    ensures Ascii("\"") == [QUOTE] && Ascii(",") == [COMMA] && Ascii(":") == [COLON]
    ensures Ascii("[") == [OPEN_BRACKET] && Ascii("]") == [CLOSE_BRACKET]
    ensures Ascii("{") == [OPEN_BRACE] && Ascii("}") == [CLOSE_BRACE]
  {}

  lemma MoreItems(it: Item, rest: Items)
    requires ValidItem(it) && ValidItems(rest)
    ensures var items := More(it, rest);
            && ValidItems(items) && ItemsMeaning(items) == [Meaning(it.value)] + ItemsMeaning(rest)
            && ItemsText(items) + [CLOSE_BRACKET] == ItemText(it) + [COMMA] + (ItemsText(rest) + [CLOSE_BRACKET])
  {
    hide Text, Meaning, ItemText, Valid;
    Marks();
  }

  lemma MoreMembers(e: Entry, rest: Entries)
    requires ValidEntry(e) && ValidItem(e.item) && ValidEntries(rest)
    ensures var entries := MoreEntries(e, rest);
            && ValidEntries(entries)
            && EntriesMembers(entries) == [(PiecesMeaning(e.key), Meaning(e.item.value))] + EntriesMembers(rest)
            && EntriesText(entries) + [CLOSE_BRACE] == EntryText(e) + [COMMA] + (EntriesText(rest) + [CLOSE_BRACE])
  {
    hide Text, Meaning, EntryText, Valid, PiecesMeaning;
    Marks();
  }

  lemma Words()
    ensures Ascii("null") == NULL && Ascii("true") == TRUE && Ascii("false") == FALSE
  {}

  lemma WhiteIs(c: byte)
    ensures (c as int as char) in " \t\n\r" <==> IsWhite(c)
  {
    assert " \t\n\r" == [' ', '\t', '\n', '\r'];
  }

  lemma WhiteSkipped(gap: Octets)
    ensures White(gap) <==> forall k :: 0 <= k < |gap| ==> IsWhite(gap[k])
  {
    forall k | 0 <= k < |gap| ensures (gap[k] as int as char) in " \t\n\r" <==> IsWhite(gap[k]) {
      WhiteIs(gap[k]);
    }
  }

  lemma FigureBegins(numeral: Numeral)
    requires ValidNumeral(numeral)
    ensures var t := NumeralText(numeral); t != [] && (IsDigit(t[0]) || t[0] == 0x2D) && WellFormed(Number(t))
  {
    NumeralIsNumber(numeral);
  }

  lemma TextBegins(v: Spelling)
    requires Valid(v)
    ensures var t := Text(v); t != [] && !IsWhite(t[0]) && t[0] != CLOSE_BRACE && t[0] != CLOSE_BRACKET
  {
    hide ItemsText, EntriesText, PiecesText, NumeralText;
    Marks();
    Words();
    if v.Figure? {
      FigureBegins(v.numeral);
    }
  }

  /** Behind an item comes the end of the text or a mark. */
  ghost predicate Delimited(b: Octets, end: nat) {
    end <= |b| && (end < |b| ==> b[end] == COMMA || b[end] == CLOSE_BRACKET || b[end] == CLOSE_BRACE)
  }

  lemma WordSpelt(v: Spelling, b: Octets, i: nat)
    requires Valid(v) && (v.Word? || v.Figure?) && Occurs(b, i, Text(v)) && EndsNumber(b, i + |Text(v)|)
    ensures i < |b| && ParseAt(b, i) == Some((Meaning(v), i + |Text(v)|))
  {
    hide Occurs, ParseAt;
    Words();
    if v.Figure? {
      FigureBegins(v.numeral);
    }
    WordPrinted(Meaning(v), Compact, 0, b, i);
  }

  lemma QuotedSpelt(pieces: seq<Piece>, b: Octets, i: nat)
    requires ValidPieces(pieces) && Occurs(b, i, Ascii("\"") + (PiecesText(pieces) + Ascii("\"")))
    ensures i < |b| && b[i] == QUOTE
    ensures ParseString(b, i + 1) == Some((PiecesMeaning(pieces), i + 2 + |PiecesText(pieces)|))
  {
    hide Occurs, PiecesText, PiecesMeaning, ParseString;
    Marks();
    OccursSplit(b, i, [QUOTE], PiecesText(pieces) + [QUOTE]);
    OccursAt(b, i, [QUOTE], 0);
    StringSpelt(pieces, b, i + 1);
  }

  /** White space between two marks. */
  lemma EmptySpelt(open: byte, gap: Octets, close: byte, b: Octets, i: nat)
    requires White(gap) && !IsWhite(close) && Occurs(b, i, [open] + gap + [close])
    ensures i < |b| && b[i] == open && SkipWhite(b, i + 1) == i + 1 + |gap| < |b| && b[i + 1 + |gap|] == close
  {
    hide Occurs;
    Split3(b, i, [open], gap, [close]);
    OccursAt(b, i, [open], 0);
    WhiteSkipped(gap);
    BehindGap(b, i + 1, gap, [close]);
  }

  lemma {:induction false} ValueSpelt(v: Spelling, b: Octets, i: nat)
    requires Valid(v) && Occurs(b, i, Text(v)) && EndsNumber(b, i + |Text(v)|)
    ensures i < |b| && ParseAt(b, i) == Some((Meaning(v), i + |Text(v)|))
    decreases v
  {
    hide Occurs, ParseString, ParseWord, ParseItems, ParseMembers, PiecesText, ItemsText, EntriesText, FromMembers, SkipWhite;
    Marks();
    match v
    case Word(_) => WordSpelt(v, b, i);
    case Figure(_) => WordSpelt(v, b, i);
    case Quoted(pieces) => QuotedSpelt(pieces, b, i);
    case EmptyList(gap) => EmptySpelt(OPEN_BRACKET, gap, CLOSE_BRACKET, b, i);
    case List(items) =>
      var inner := ItemsText(items);
      assert Text(v) == [OPEN_BRACKET] + (inner + [CLOSE_BRACKET]);
      OccursSplit(b, i, [OPEN_BRACKET], inner + [CLOSE_BRACKET]);
      OccursAt(b, i, [OPEN_BRACKET], 0);
      ItemsSpelt(items, b, i + 1);
    case EmptyRecord(gap) => EmptySpelt(OPEN_BRACE, gap, CLOSE_BRACE, b, i);
    case Record(entries) =>
      var inner := EntriesText(entries);
      assert Text(v) == [OPEN_BRACE] + (inner + [CLOSE_BRACE]);
      OccursSplit(b, i, [OPEN_BRACE], inner + [CLOSE_BRACE]);
      OccursAt(b, i, [OPEN_BRACE], 0);
      EntriesSpelt(entries, b, i + 1);
      LastCounts(entries);
  }

  lemma {:induction false} ItemSpelt(it: Item, b: Octets, i: nat)
    requires ValidItem(it) && Occurs(b, i, ItemText(it)) && Delimited(b, i + |ItemText(it)|)
    ensures var s := i + |it.before|;
            && SkipWhite(b, i) == s < |b| && b[s] != CLOSE_BRACKET && b[s] != CLOSE_BRACE
            && ParseAt(b, s) == Some((Meaning(it.value), s + |Text(it.value)|))
            && SkipWhite(b, s + |Text(it.value)|) == i + |ItemText(it)|
    decreases it
  {
    hide Occurs, ParseAt, SkipWhite, Text;
    var text := Text(it.value);
    Split3(b, i, it.before, text, it.after);
    TextBegins(it.value);
    WhiteSkipped(it.before);
    BehindGap(b, i, it.before, text);
    var end := i + |it.before| + |text|;
    WhiteSkipped(it.after);
    if it.after != [] {
      OccursAt(b, end, it.after, 0);
      assert IsWhite(it.after[0]);
    }
    GapSkipped(b, end, it.after);
    ValueSpelt(it.value, b, i + |it.before|);
  }

  lemma {:induction false} ItemsSpelt(items: Items, b: Octets, i: nat)
    requires ValidItems(items) && Occurs(b, i, ItemsText(items) + [CLOSE_BRACKET])
    ensures ParseItems(b, i) == Some((ItemsMeaning(items), i + |ItemsText(items)| + 1))
    ensures var t := SkipWhite(b, i); t < |b| && b[t] != CLOSE_BRACKET
    decreases items
  {
    hide Occurs, ParseAt, ParseItems, SkipWhite, Meaning, ItemText, Valid, Text;
    Marks();
    assert ValidItem(items.item);
    var text := ItemText(items.item);
    if items.Last? {
      OccursSplit(b, i, text, [CLOSE_BRACKET]);
      OccursAt(b, i + |text|, [CLOSE_BRACKET], 0);
      ItemSpelt(items.item, b, i);
      ItemRead(b, i, Meaning(items.item.value), i + |items.item.before| + |Text(items.item.value)|);
      assert ItemsMeaning(items) == [Meaning(items.item.value)];
    } else {
      var rest := ItemsText(items.rest);
      MoreItems(items.item, items.rest);
      Split3(b, i, text, [COMMA], rest + [CLOSE_BRACKET]);
      OccursAt(b, i + |text|, [COMMA], 0);
      ItemSpelt(items.item, b, i);
      ItemsSpelt(items.rest, b, i + |text| + 1);
      ItemRead(b, i, Meaning(items.item.value), i + |items.item.before| + |Text(items.item.value)|);
    }
  }

  lemma KeySpelt(e: Entry, b: Octets, i: nat)
    requires White(e.before) && ValidPieces(e.key) && White(e.after)
    requires Occurs(b, i, e.before + [QUOTE] + (PiecesText(e.key) + [QUOTE]) + e.after + [COLON])
    ensures SkipWhite(b, i) == i + |e.before| < |b| && b[i + |e.before|] == QUOTE
    ensures ParseKey(b, i)
            == Some((PiecesMeaning(e.key), i + |e.before| + 1 + |PiecesText(e.key)| + 1 + |e.after| + 1))
  {
    hide Occurs, PiecesText, PiecesMeaning, ParseString, SkipWhite;
    var text := PiecesText(e.key) + [QUOTE];
    Split3(b, i, e.before + [QUOTE] + text, e.after, [COLON]);
    Split3(b, i, e.before, [QUOTE], text);
    WhiteSkipped(e.before);
    BehindGap(b, i, e.before, [QUOTE]);
    StringSpelt(e.key, b, i + |e.before| + 1);
    WhiteSkipped(e.after);
    BehindGap(b, i + |e.before| + 1 + |text|, e.after, [COLON]);
  }

  lemma {:induction false} EntrySpelt(e: Entry, b: Octets, i: nat)
    requires ValidEntry(e) && Occurs(b, i, EntryText(e)) && Delimited(b, i + |EntryText(e)|)
    ensures SkipWhite(b, i) < |b| && b[SkipWhite(b, i)] == QUOTE
    ensures ParseMember(b, i) == Some((PiecesMeaning(e.key), Meaning(e.item.value), i + |EntryText(e)|))
    decreases e
  {
    hide Occurs, PiecesText, PiecesMeaning, ParseKey, ParseMember, ParseAt, SkipWhite, Meaning, ItemText, Valid;
    Marks();
    var name := e.before + [QUOTE] + (PiecesText(e.key) + [QUOTE]) + e.after + [COLON];
    OccursSplit(b, i, name, ItemText(e.item));
    KeySpelt(e, b, i);
    ItemSpelt(e.item, b, i + |name|);
    MemberRead(b, i, PiecesMeaning(e.key), i + |name|, Meaning(e.item.value),
               i + |name| + |e.item.before| + |Text(e.item.value)|);
  }

  lemma {:induction false} EntriesSpelt(entries: Entries, b: Octets, i: nat)
    requires ValidEntries(entries) && Occurs(b, i, EntriesText(entries) + [CLOSE_BRACE])
    ensures ParseMembers(b, i) == Some((EntriesMembers(entries), i + |EntriesText(entries)| + 1))
    ensures var t := SkipWhite(b, i); t < |b| && b[t] != CLOSE_BRACE
    decreases entries
  {
    hide Occurs, PiecesMeaning, ParseMembers, ParseMember, SkipWhite, Meaning, EntryText, Valid;
    Marks();
    assert ValidEntry(entries.entry) && ValidItem(entries.entry.item);
    var text := EntryText(entries.entry);
    var key, value := PiecesMeaning(entries.entry.key), Meaning(entries.entry.item.value);
    if entries.LastEntry? {
      OccursSplit(b, i, text, [CLOSE_BRACE]);
      OccursAt(b, i + |text|, [CLOSE_BRACE], 0);
      EntrySpelt(entries.entry, b, i);
      MembersRead(b, i, key, value, i + |text|);
      assert EntriesMembers(entries) == [(key, value)];
    } else {
      var rest := EntriesText(entries.rest);
      MoreMembers(entries.entry, entries.rest);
      Split3(b, i, text, [COMMA], rest + [CLOSE_BRACE]);
      OccursAt(b, i + |text|, [COMMA], 0);
      EntrySpelt(entries.entry, b, i);
      EntriesSpelt(entries.rest, b, i + |text| + 1);
      MembersRead(b, i, key, value, i + |text|);
    }
  }

  lemma {:induction false} FromFront(member: (Octets, Value), rest: Members)
    ensures FromMembers([member] + rest) == map[member.0 := member.1] + FromMembers(rest)
  {
    if rest == [] {
      assert ([member] + rest)[..0] == [];
    } else {
      var front := rest[..|rest| - 1];
      FromFront(member, front);
      assert ([member] + rest)[..|rest|] == [member] + front;
    }
  }

  lemma FromNone()
    ensures FromMembers([]) == map[]
  {}

  /** The members read front to back denote the same object as when each is overridden by those behind it. */
  lemma {:induction false} LastCounts(entries: Entries)
    requires ValidEntries(entries)
    ensures FromMembers(EntriesMembers(entries)) == EntriesMeaning(entries)
    decreases entries
  {
    hide FromMembers, Meaning, PiecesMeaning;
    assert ValidEntry(entries.entry) && ValidItem(entries.entry.item);
    var member := (PiecesMeaning(entries.entry.key), Meaning(entries.entry.item.value));
    if entries.LastEntry? {
      FromFront(member, []);
      FromNone();
    } else {
      LastCounts(entries.rest);
      FromFront(member, EntriesMembers(entries.rest));
    }
  }
}
