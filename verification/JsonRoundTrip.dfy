/** Parsing printed JSON gives the printed value back, in either layout and at any place in a text. */
module JsonRoundTrip {
  import opened Bytes
  import opened Json
  import opened JsonStability
  import opened JsonPrinter

  lemma PrintStarts(v: Value, layout: Layout, depth: nat)
    requires WellFormed(v)
    ensures var p := Print(v, layout, depth); |p| > 0 && !IsWhite(p[0]) && p[0] != CLOSE_BRACE && p[0] != CLOSE_BRACKET
  {
    if v.Number? {
      assert v.literal[0] in v.literal;
    }
  }

  /** White space standing in `b` at `i` is skipped. */
  lemma GapSkipped(b: Octets, i: nat, gap: Octets)
    requires Occurs(b, i, gap) && EndsWhite(b, i + |gap|)
    requires forall k :: 0 <= k < |gap| ==> IsWhite(gap[k])
    ensures SkipWhite(b, i) == i + |gap|
  {
    forall k | i <= k < i + |gap| ensures IsWhite(b[k]) {
      OccursAt(b, i, gap, k - i);
    }
    SkipWhiteIs(b, i, i + |gap|);
  }

  lemma Split3(b: Octets, i: nat, x: Octets, y: Octets, z: Octets)
    requires Occurs(b, i, x + y + z)
    ensures Occurs(b, i, x) && Occurs(b, i + |x|, y) && Occurs(b, i + |x| + |y|, z)
  {
    OccursSplit(b, i, x + y, z);
    OccursSplit(b, i, x, y);
  }

  lemma Split4(b: Octets, i: nat, w: Octets, x: Octets, y: Octets, z: Octets)
    requires Occurs(b, i, w + x + y + z)
    ensures Occurs(b, i, w) && Occurs(b, i + |w|, x) && Occurs(b, i + |w| + |x|, y) && Occurs(b, i + |w| + |x| + |y|, z)
  {
    OccursSplit(b, i, w + x + y, z);
    Split3(b, i, w, x, y);
  }

  lemma Split6(b: Octets, i: nat, u: Octets, v: Octets, w: Octets, x: Octets, y: Octets, z: Octets)
    requires Occurs(b, i, u + v + w + x + y + z)
    ensures Occurs(b, i, u) && Occurs(b, i + |u|, v) && Occurs(b, i + |u| + |v|, w)
    ensures Occurs(b, i + |u| + |v| + |w|, x) && Occurs(b, i + |u| + |v| + |w| + |x|, y)
    ensures Occurs(b, i + |u| + |v| + |w| + |x| + |y|, z)
  {
    Split3(b, i, u + v + w + x, y, z);
    Split4(b, i, u, v, w, x);
  }

  lemma NotStarting(b: Octets, i: nat, word: Octets)
    requires i < |b| && word != [] && b[i] != word[0]
    ensures !StartsAt(b, i, word)
  {
    if i + |word| <= |b| {
      assert b[i..i + |word|][0] == b[i];
    }
  }

  lemma WordPrinted(v: Value, layout: Layout, depth: nat, b: Octets, i: nat)
    requires v.Null? || v.Bool? || v.Number?
    requires WellFormed(v) && Occurs(b, i, Print(v, layout, depth))
    requires EndsNumber(b, i + |Print(v, layout, depth)|)
    ensures i < |b| && ParseAt(b, i) == Some((v, i + |Print(v, layout, depth)|))
  {
    hide Occurs, DigitsEnd, IsNumber;
    var p := Print(v, layout, depth);
    PrintStarts(v, layout, depth);
    OccursAt(b, i, p, 0);
    OccursSlice(b, i, p);
    if b[i] != TRUE[0] {
      NotStarting(b, i, TRUE);
    }
    if b[i] != FALSE[0] {
      NotStarting(b, i, FALSE);
    }
    if b[i] != NULL[0] {
      NotStarting(b, i, NULL);
    }
    if v.Number? {
      forall k | i <= k < i + |p| ensures IsNumberByte(b[k]) {
        OccursAt(b, i, p, k - i);
        assert p[k - i] in p;
      }
      NumberEndIs(b, i, i + |p|);
    }
  }

  lemma {:induction false} ValuePrinted(v: Value, layout: Layout, depth: nat, b: Octets, i: nat)
    requires WellFormed(v) && Occurs(b, i, Print(v, layout, depth))
    requires EndsNumber(b, i + |Print(v, layout, depth)|)
    ensures i < |b| && ParseAt(b, i) == Some((v, i + |Print(v, layout, depth)|))
    decreases v
  {
    hide ParseArray, ParseObject, ParseString, PrintString, ParseWord, Occurs;
    if v.Str? {
      TextPrinted(v.text, b, i);
    } else if v.Array? {
      ArrayPrinted(v, layout, depth, b, i);
    } else if v.Object? {
      ObjectPrinted(v, layout, depth, b, i);
    } else {
      WordPrinted(v, layout, depth, b, i);
    }
  }

  lemma TextPrinted(text: Octets, b: Octets, i: nat)
    requires Occurs(b, i, [QUOTE] + PrintString(text))
    ensures i < |b| && b[i] == QUOTE && ParseString(b, i + 1) == Some((text, i + 1 + |PrintString(text)|))
  {
    hide ParseString, PrintString, Occurs;
    OccursSplit(b, i, [QUOTE], PrintString(text));
    OccursAt(b, i, [QUOTE], 0);
    StringPrinted(text, b, i + 1);
  }

  /** A value text behind a gap: the gap is skipped, the text stands there. */
  lemma BehindGap(b: Octets, i: nat, gap: Octets, p: Octets)
    requires Occurs(b, i, gap) && Occurs(b, i + |gap|, p) && p != [] && !IsWhite(p[0])
    requires forall k :: 0 <= k < |gap| ==> IsWhite(gap[k])
    ensures SkipWhite(b, i) == i + |gap| < |b| && b[i + |gap|] == p[0]
  {
    OccursAt(b, i + |gap|, p, 0);
    GapSkipped(b, i, gap);
  }

  // ---- single steps of the parser, stated on positions

  lemma ItemRead(b: Octets, i: nat, value: Value, end: nat)
    requires i <= |b| && SkipWhite(b, i) < |b| && ParseAt(b, SkipWhite(b, i)) == Some((value, end))
    ensures ParseValue(b, i) == Some((value, end))
    ensures var next := SkipWhite(b, end);
            && (next < |b| && b[next] == CLOSE_BRACKET ==> ParseItems(b, i) == Some(([value], next + 1)))
            && (next < |b| && b[next] == COMMA && ParseItems(b, next + 1).Some? ==>
                  ParseItems(b, i) == Some(([value] + ParseItems(b, next + 1).value.0, ParseItems(b, next + 1).value.1)))
  {
    hide ParseAt;
  }

  lemma ArrayRead(b: Octets, i: nat, items: seq<Value>, end: nat)
    requires i <= |b| && ParseItems(b, i) == Some((items, end))
    requires SkipWhite(b, i) < |b| && b[SkipWhite(b, i)] != CLOSE_BRACKET
    ensures ParseArray(b, i) == Some((Array(items), end))
  {}

  lemma KeyRead(b: Octets, i: nat, quote: nat, key: Octets, colon: nat)
    requires i <= |b| && SkipWhite(b, i) == quote < |b| && b[quote] == QUOTE
    requires Occurs(b, quote + 1, PrintString(key)) && colon == quote + 1 + |PrintString(key)| < |b| && b[colon] == COLON
    ensures ParseKey(b, i) == Some((key, colon + 1))
  {
    hide ParseString, PrintString, Occurs;
    StringPrinted(key, b, quote + 1);
    SkipWhiteIs(b, colon, colon);
  }

  lemma MemberRead(b: Octets, i: nat, key: Octets, start: nat, value: Value, end: nat)
    requires i <= |b| && ParseKey(b, i) == Some((key, start))
    requires SkipWhite(b, start) < |b| && ParseAt(b, SkipWhite(b, start)) == Some((value, end))
    ensures ParseMember(b, i) == Some((key, value, SkipWhite(b, end)))
  {}

  lemma MembersRead(b: Octets, i: nat, key: Octets, value: Value, next: nat)
    requires i <= |b| && ParseMember(b, i) == Some((key, value, next)) && next < |b|
    ensures b[next] == CLOSE_BRACE ==> ParseMembers(b, i) == Some(([(key, value)], next + 1))
    ensures b[next] == COMMA && ParseMembers(b, next + 1).Some? ==>
              ParseMembers(b, i) == Some(([(key, value)] + ParseMembers(b, next + 1).value.0,
                                          ParseMembers(b, next + 1).value.1))
  {}

  lemma ObjectRead(b: Octets, i: nat, members: Members, end: nat)
    requires i <= |b| && ParseMembers(b, i) == Some((members, end))
    requires SkipWhite(b, i) < |b| && b[SkipWhite(b, i)] != CLOSE_BRACE
    ensures ParseObject(b, i) == Some((Object(FromMembers(members)), end))
  {}

  lemma EmptyRead(b: Octets, i: nat)
    ensures Occurs(b, i, [OPEN_BRACKET, CLOSE_BRACKET]) ==>
              b[i] == OPEN_BRACKET && ParseArray(b, i + 1) == Some((Array([]), i + 2))
    ensures Occurs(b, i, [OPEN_BRACE, CLOSE_BRACE]) ==>
              b[i] == OPEN_BRACE && ParseObject(b, i + 1) == Some((Object(map[]), i + 2))
  {
    if Occurs(b, i, [OPEN_BRACKET, CLOSE_BRACKET]) {
      OccursAt(b, i, [OPEN_BRACKET, CLOSE_BRACKET], 0);
      OccursAt(b, i, [OPEN_BRACKET, CLOSE_BRACKET], 1);
    }
    if Occurs(b, i, [OPEN_BRACE, CLOSE_BRACE]) {
      OccursAt(b, i, [OPEN_BRACE, CLOSE_BRACE], 0);
      OccursAt(b, i, [OPEN_BRACE, CLOSE_BRACE], 1);
    }
  }

  // ---- the printer, one unfolding at a time

  lemma PrintItemsIs(v: Value, k: nat, layout: Layout, depth: nat)
    requires v.Array? && k < |v.items|
    ensures PrintItems(v, k, layout, depth)
            == if k + 1 == |v.items| then Gap(layout, depth) + Print(v.items[k], layout, depth)
               else Gap(layout, depth) + Print(v.items[k], layout, depth) + [COMMA] + PrintItems(v, k + 1, layout, depth)
  {}

  lemma PrintIs(v: Value, layout: Layout, depth: nat)
    ensures v.Array? ==>
              Print(v, layout, depth)
              == if v.items == [] then [OPEN_BRACKET, CLOSE_BRACKET]
                 else [OPEN_BRACKET] + PrintItems(v, 0, layout, depth + 1) + Gap(layout, depth) + [CLOSE_BRACKET]
    ensures v.Object? ==>
              Print(v, layout, depth)
              == if v.fields == map[] then [OPEN_BRACE, CLOSE_BRACE]
                 else [OPEN_BRACE] + PrintFields(v, SortedKeys(v.fields.Keys), layout, depth + 1)
                      + Gap(layout, depth) + [CLOSE_BRACE]
  {}

  lemma PrintFieldsIs(v: Value, keys: seq<Octets>, layout: Layout, depth: nat)
    requires v.Object? && keys != [] && forall k <- keys :: k in v.fields
    ensures PrintFields(v, keys, layout, depth)
            == if |keys| == 1 then PrintField(v, keys[0], layout, depth)
               else PrintField(v, keys[0], layout, depth) + [COMMA] + PrintFields(v, keys[1..], layout, depth)
  {}

  // ---- arrays

  lemma {:induction false} ArrayPrinted(v: Value, layout: Layout, depth: nat, b: Octets, i: nat)
    requires v.Array? && WellFormed(v) && Occurs(b, i, Print(v, layout, depth))
    ensures i < |b| && b[i] == OPEN_BRACKET
    ensures ParseArray(b, i + 1) == Some((v, i + |Print(v, layout, depth)|))
    decreases v, 1
  {
    hide ParseArray, ParseItems, Print, PrintItems, Occurs, SkipWhite, Gap;
    PrintIs(v, layout, depth);
    if v.items == [] {
      EmptyRead(b, i);
    } else {
      var inner := PrintItems(v, 0, layout, depth + 1);
      Split4(b, i, [OPEN_BRACKET], inner, Gap(layout, depth), [CLOSE_BRACKET]);
      OccursAt(b, i, [OPEN_BRACKET], 0);
      BehindGap(b, i + 1 + |inner|, Gap(layout, depth), [CLOSE_BRACKET]);
      ItemsPrinted(v, 0, layout, depth + 1, b, i + 1);
      assert v.items[0..] == v.items;
      ArrayRead(b, i + 1, v.items, i + |Print(v, layout, depth)|);
    }
  }

  lemma Tail<T>(s: seq<T>, k: nat)
    requires k < |s|
    ensures s[k..] == [s[k]] + s[k + 1..]
    ensures k + 1 == |s| ==> s[k..] == [s[k]]
  {}

  lemma {:induction false} ItemsPrinted(v: Value, k: nat, layout: Layout, depth: nat, b: Octets, i: nat)
    requires v.Array? && k < |v.items| && WellFormed(v)
    requires Occurs(b, i, PrintItems(v, k, layout, depth))
    requires var end := SkipWhite(b, i + |PrintItems(v, k, layout, depth)|); end < |b| && b[end] == CLOSE_BRACKET
    ensures ParseItems(b, i)
            == Some((v.items[k..], SkipWhite(b, i + |PrintItems(v, k, layout, depth)|) + 1))
    ensures var t := SkipWhite(b, i); t < |b| && b[t] != CLOSE_BRACKET
    decreases v, 0, |v.items| - k
  {
    hide ParseItems, ParseValue, ParseAt, Occurs, Print, PrintItems, SkipWhite, Gap;
    PrintItemsIs(v, k, layout, depth);
    var gap, item := Gap(layout, depth), v.items[k];
    var p := Print(item, layout, depth);
    PrintStarts(item, layout, depth);
    Tail(v.items, k);
    if k + 1 < |v.items| {
      var rest := PrintItems(v, k + 1, layout, depth);
      Split4(b, i, gap, p, [COMMA], rest);
      BehindGap(b, i, gap, p);
      var after := i + |gap| + |p|;
      OccursAt(b, after, [COMMA], 0);
      ValuePrinted(item, layout, depth, b, i + |gap|);
      SkipWhiteIs(b, after, after);
      ItemsPrinted(v, k + 1, layout, depth, b, after + 1);
      ItemRead(b, i, item, after);
    } else {
      OccursSplit(b, i, gap, p);
      BehindGap(b, i, gap, p);
      ValuePrinted(item, layout, depth, b, i + |gap|);
      ItemRead(b, i, item, i + |gap| + |p|);
    }
  }

  // ---- objects

  function MembersOf(v: Value, keys: seq<Octets>): (r: Members)
    requires v.Object? && forall k <- keys :: k in v.fields
    ensures |r| == |keys|
  {
    seq(|keys|, j requires 0 <= j < |keys| => (keys[j], v.fields[keys[j]]))
  }

  lemma MembersOfHead(v: Value, keys: seq<Octets>)
    requires v.Object? && keys != [] && forall k <- keys :: k in v.fields
    ensures MembersOf(v, keys) == [(keys[0], v.fields[keys[0]])] + MembersOf(v, keys[1..])
    ensures |keys| == 1 ==> MembersOf(v, keys) == [(keys[0], v.fields[keys[0]])]
  {}

  lemma {:induction false} MembersDenote(v: Value, keys: seq<Octets>)
    requires v.Object? && forall k <- keys :: k in v.fields
    ensures FromMembers(MembersOf(v, keys)) == map k | k in keys :: v.fields[k]
  {
    if keys != [] {
      var front := keys[..|keys| - 1];
      MembersDenote(v, front);
      assert MembersOf(v, keys)[..|keys| - 1] == MembersOf(v, front);
      assert keys == front + [keys[|keys| - 1]];
    }
  }

  lemma {:induction false} ObjectPrinted(v: Value, layout: Layout, depth: nat, b: Octets, i: nat)
    requires v.Object? && WellFormed(v) && Occurs(b, i, Print(v, layout, depth))
    ensures i < |b| && b[i] == OPEN_BRACE
    ensures ParseObject(b, i + 1) == Some((v, i + |Print(v, layout, depth)|))
    decreases v, 2
  {
    hide ParseObject, ParseMembers, SortedKeys, Print, MembersOf, FromMembers, Occurs;
    if v.fields == map[] {
      PrintIs(v, layout, depth);
      EmptyRead(b, i);
    } else {
      var keys := KeysOf(v);
      ObjectMembersPrinted(v, keys, layout, depth, b, i);
      ObjectRead(b, i + 1, MembersOf(v, keys), i + |Print(v, layout, depth)|);
    }
  }

  /** A printed object that is not empty is read member by member, in key order. */
  lemma {:induction false} ObjectMembersPrinted(v: Value, keys: seq<Octets>, layout: Layout, depth: nat, b: Octets, i: nat)
    requires v.Object? && WellFormed(v) && v.fields != map[] && Occurs(b, i, Print(v, layout, depth))
    requires keys == SortedKeys(v.fields.Keys) && keys != []
    ensures i < |b| && b[i] == OPEN_BRACE
    ensures ParseMembers(b, i + 1) == Some((MembersOf(v, keys), i + |Print(v, layout, depth)|))
    ensures var t := SkipWhite(b, i + 1); t < |b| && b[t] != CLOSE_BRACE
    decreases v, 1
  {
    hide ParseObject, ParseMembers, SortedKeys, Print, PrintFields, MembersOf, FromMembers, Occurs;
    PrintIs(v, layout, depth);
    var inner := PrintFields(v, keys, layout, depth + 1);
    Split4(b, i, [OPEN_BRACE], inner, Gap(layout, depth), [CLOSE_BRACE]);
    OccursAt(b, i, [OPEN_BRACE], 0);
    BehindGap(b, i + 1 + |inner|, Gap(layout, depth), [CLOSE_BRACE]);
    FieldsPrinted(v, keys, layout, depth + 1, b, i + 1);
  }

  lemma KeysOf(v: Value) returns (keys: seq<Octets>)
    requires v.Object? && v.fields != map[]
    ensures keys == SortedKeys(v.fields.Keys) && keys != []
    ensures FromMembers(MembersOf(v, keys)) == v.fields
  {
    keys := SortedKeys(v.fields.Keys);
    assert v.fields.Keys != {};
    MembersDenote(v, keys);
    assert (map k | k in keys :: v.fields[k]) == v.fields;
  }

  /** A printed member: where its key, its colon and its value text stand. */
  lemma KeyPrinted(gap: Octets, key: Octets, space: Octets, p: Octets, b: Octets, i: nat)
    requires Occurs(b, i, gap + [QUOTE] + PrintString(key) + [COLON] + space + p)
    requires p != [] && !IsWhite(p[0])
    requires forall k :: 0 <= k < |gap| ==> IsWhite(gap[k])
    requires forall k :: 0 <= k < |space| ==> IsWhite(space[k])
    ensures var colon := i + |gap| + 1 + |PrintString(key)|;
            && SkipWhite(b, i) == i + |gap| < |b| && b[i + |gap|] == QUOTE
            && Occurs(b, i + |gap| + 1, PrintString(key))
            && colon < |b| && b[colon] == COLON
            && SkipWhite(b, colon + 1) == colon + 1 + |space| < |b|
            && Occurs(b, colon + 1 + |space|, p)
  {
    hide PrintString, SkipWhite, Occurs;
    var text := PrintString(key);
    Split6(b, i, gap, [QUOTE], text, [COLON], space, p);
    BehindGap(b, i, gap, [QUOTE]);
    var colon := i + |gap| + 1 + |text|;
    OccursAt(b, colon, [COLON], 0);
    BehindGap(b, colon + 1, space, p);
  }

  /** One printed member, read back up to the end of its value. */
  lemma {:induction false} FieldPrinted(v: Value, key: Octets, layout: Layout, depth: nat, b: Octets, i: nat)
    requires v.Object? && WellFormed(v) && key in v.fields
    requires Occurs(b, i, PrintField(v, key, layout, depth))
    requires EndsNumber(b, i + |PrintField(v, key, layout, depth)|)
    ensures var t := SkipWhite(b, i); t < |b| && b[t] != CLOSE_BRACE
    ensures var end := i + |PrintField(v, key, layout, depth)|;
            ParseMember(b, i) == Some((key, v.fields[key], SkipWhite(b, end)))
    decreases v, 0, 0
  {
    hide ParseMember, ParseKey, ParseValue, ParseAt, PrintString, Occurs, Print;
    var value := v.fields[key];
    var gap, p, space := Gap(layout, depth), Print(value, layout, depth), AfterColon(layout);
    PrintStarts(value, layout, depth);
    KeyPrinted(gap, key, space, p, b, i);
    var colon := i + |gap| + 1 + |PrintString(key)|;
    KeyRead(b, i, i + |gap|, key, colon);
    ValuePrinted(value, layout, depth, b, colon + 1 + |space|);
    MemberRead(b, i, key, colon + 1, value, colon + 1 + |space| + |p|);
  }

  lemma {:induction false} FieldsPrinted(v: Value, keys: seq<Octets>, layout: Layout, depth: nat, b: Octets, i: nat)
    requires v.Object? && WellFormed(v) && keys != [] && forall k <- keys :: k in v.fields
    requires Occurs(b, i, PrintFields(v, keys, layout, depth))
    requires var end := SkipWhite(b, i + |PrintFields(v, keys, layout, depth)|); end < |b| && b[end] == CLOSE_BRACE
    ensures ParseMembers(b, i)
            == Some((MembersOf(v, keys), SkipWhite(b, i + |PrintFields(v, keys, layout, depth)|) + 1))
    ensures var t := SkipWhite(b, i); t < |b| && b[t] != CLOSE_BRACE
    decreases v, 0, |keys|
  {
    hide ParseMembers, ParseMember, PrintField, PrintFields, MembersOf, Occurs, SkipWhite;
    PrintFieldsIs(v, keys, layout, depth);
    var field := PrintField(v, keys[0], layout, depth);
    var after := i + |field|;
    if 1 < |keys| {
      Split3(b, i, field, [COMMA], PrintFields(v, keys[1..], layout, depth));
      OccursAt(b, after, [COMMA], 0);
      FieldPrinted(v, keys[0], layout, depth, b, i);
      SkipWhiteIs(b, after, after);
      FieldsPrinted(v, keys[1..], layout, depth, b, after + 1);
      MembersRead(b, i, keys[0], v.fields[keys[0]], after);
    } else {
      FieldPrinted(v, keys[0], layout, depth, b, i);
      MembersRead(b, i, keys[0], v.fields[keys[0]], SkipWhite(b, after));
    }
    MembersOfHead(v, keys);
  }

  /** A document printed as a whole is read back as the same document. */
  lemma DocumentPrinted(v: Value, layout: Layout)
    requires WellFormed(v)
    ensures ParseDocument(Print(v, layout, 0)) == Some(v)
  {
    var b := Print(v, layout, 0);
    assert b[0..0 + |b|] == b;
    OccursSlice(b, 0, b);
    ValuePrinted(v, layout, 0, b, 0);
    PrintStarts(v, layout, 0);
    SkipWhiteIs(b, 0, 0);
  }
}
