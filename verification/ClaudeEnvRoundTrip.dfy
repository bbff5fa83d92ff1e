/** Taking the managed `env` out again: when that gives the original bytes back, and when it cannot. */
module ClaudeEnvRoundTrip {
  import opened Bytes
  import opened Json
  import opened JsonStability
  import opened JsonPrinter
  import opened JsonRoundTrip
  import opened JsonMembers
  import opened ClaudeDocument
  import opened ClaudeEnvEdit
  import opened ClaudeEnvEditProofs
  import opened ClaudeEnvRemoval

  // ---- removing what was inserted

  ghost predicate Contains(text: Octets, needle: Octets) {
    exists k: nat :: k + |needle| <= |text| && StartsAt(text, k, needle)
  }

  lemma BoundsAre(c: Octets, open: nat, shut: nat)
    requires open < shut < |c| && c[open] == OPEN_BRACE && c[shut] == CLOSE_BRACE
    requires SkipWhite(c, 0) == open && SkipWhite(c, shut + 1) == |c|
    ensures RootBounds(c) == Some((open, shut))
  {
    SkipAsciiWhiteIs(c, 0, open);
    TrimEndIs(c, |c|, shut + 1);
  }

  lemma InsertedBounds(b: Octets, open: nat, close: nat, rootIsEmpty: bool, env: Octets)
    requires open < close < |b| && b[open] == OPEN_BRACE && b[close] == CLOSE_BRACE
    requires SkipWhite(b, 0) == open && SkipWhite(b, close + 1) == |b|
    requires rootIsEmpty ==> SkipWhite(b, open + 1) == close
    ensures var shut := if rootIsEmpty then close + 6 + |env| else close + 7 + |env|;
            RootBounds(Inserted(b, open, close, rootIsEmpty, env)) == Some((open, shut))
  {
    hide RootBounds, Inserted, SkipWhite, Occurs;
    InsertedPieces(b, open, close, rootIsEmpty, env);
    InsertedTail(b, open, close, rootIsEmpty, env);
    var c := Inserted(b, open, close, rootIsEmpty, env);
    SkipWhiteIs(c, 0, open);
    BoundsAre(c, open, if rootIsEmpty then close + 6 + |env| else close + 7 + |env|);
  }

  /** The inserted member, seen as one stretch of bytes. */
  lemma InsertedMember(b: Octets, open: nat, close: nat, env: Octets)
    requires open < close < |b|
    ensures var c := Inserted(b, open, close, false, env);
            && |c| == |b| + 7 + |env| && StartsAt(c, close, ENV_MEMBER)
            && c[close + 7..close + 7 + |env|] == env
            && c[..close] + c[close + 7 + |env|..] == b
  {}

  lemma StartsWithFirst(b: Octets, i: nat, word: Octets)
    requires word != []
    ensures StartsAt(b, i, word) ==> i < |b| && b[i] == word[0]
  {
    if StartsAt(b, i, word) {
      assert b[i..i + |word|][0] == b[i];
    }
  }

  /** An occurrence of the member text behind the insertion lies within the inserted value. */
  lemma LaterOccurrence(b: Octets, open: nat, close: nat, env: Octets, k: nat)
    requires open < close < |b| && close < k && k + 7 <= close + 7 + |env|
    ensures var c := Inserted(b, open, close, false, env);
            StartsAt(c, k, ENV_MEMBER) <==> close + 7 <= k && StartsAt(env, k - (close + 7), ENV_MEMBER)
  {
    hide Inserted;
    var c := Inserted(b, open, close, false, env);
    InsertedMember(b, open, close, env);
    if k < close + 7 {
      StartsWithFirst(c, k, ENV_MEMBER);
      assert c[close..close + 7][k - close] == c[k];
    } else {
      assert c[k..k + 7] == c[close + 7..close + 7 + |env|][k - (close + 7)..k - close];
    }
  }

  lemma LastOccurrence(b: Octets, open: nat, close: nat, env: Octets)
    requires open < close < |b|
    ensures var last := FindLast(Inserted(b, open, close, false, env), ENV_MEMBER, open + 1, close + 7 + |env|);
            && last.Some? && close <= last.value
            && (last.value == close <==> !Contains(env, ENV_MEMBER))
  {
    hide Inserted, FindLast;
    var c := Inserted(b, open, close, false, env);
    InsertedMember(b, open, close, env);
    var last := FindLast(c, ENV_MEMBER, open + 1, close + 7 + |env|);
    if close < last.value {
      LaterOccurrence(b, open, close, env, last.value);
    }
    if Contains(env, ENV_MEMBER) {
      var j: nat :| j + 7 <= |env| && StartsAt(env, j, ENV_MEMBER);
      LaterOccurrence(b, open, close, env, close + 7 + j);
    }
  }

  /**
    Removing an inserted member gives the original bytes back exactly when the member stands
    alone or its value does not itself contain `,"env":`.
  */
  lemma RemoveInserted(b: Octets, root: Root, v: Value)
    requires ParseDocument(b) == Some(Object(root)) && v.Object? && WellFormed(v)
    ensures RootBounds(b).Some?
    ensures var (open, close) := RootBounds(b).value; var env := Print(v, Compact, 0);
            RemoveManagedEnv(Inserted(b, open, close, root == map[], env), root == map[]) == Some(b)
            <==> root == map[] || !Contains(env, ENV_MEMBER)
  {
    hide ParseDocument, ParseObject, RootBounds, Inserted, Print, RemoveManagedEnv, Contains, WellFormed;
    TextBounds(b, root);
    var (open, close) := RootBounds(b).value;
    if root == map[] {
      EmptyObjectText(b, open, close);
      RemoveSoleInserted(b, open, close, v);
    } else {
      RemoveLastInserted(b, open, close, v);
    }
  }

  lemma RemoveLastInserted(b: Octets, open: nat, close: nat, v: Value)
    requires open < close < |b| && b[open] == OPEN_BRACE && b[close] == CLOSE_BRACE
    requires SkipWhite(b, 0) == open && SkipWhite(b, close + 1) == |b| && v.Object? && WellFormed(v)
    ensures var env := Print(v, Compact, 0);
            RemoveManagedEnv(Inserted(b, open, close, false, env), false) == Some(b) <==> !Contains(env, ENV_MEMBER)
  {
    hide RootBounds, Inserted, Print, FindLast, EnvValueStart, WellFormed, Contains, Occurs, ParseMember, ParseValue;
    hide SkipWhite, StartsAt;
    var env := Print(v, Compact, 0);
    var c := Inserted(b, open, close, false, env);
    InsertedBounds(b, open, close, false, env);
    InsertedMember(b, open, close, env);
    LastOccurrence(b, open, close, env);
    InsertedPieces(b, open, close, false, env);
    InsertedTail(b, open, close, false, env);
    EnvMemberRead(c, close + 1, v);
    SkipAsciiWhiteIs(c, close + 7, close + 7);
    EnvValueStartIs(c, close);
    var last := FindLast(c, ENV_MEMBER, open + 1, close + 7 + |env|).value;
    if close < last {
      forall d | RemoveManagedEnv(c, false) == Some(d) ensures d != b {
        assert d[close] == c[close];
      }
    }
  }

  lemma RemoveSoleInserted(b: Octets, open: nat, close: nat, v: Value)
    requires open < close < |b| && b[open] == OPEN_BRACE && b[close] == CLOSE_BRACE && SkipWhite(b, open + 1) == close
    requires SkipWhite(b, 0) == open && SkipWhite(b, close + 1) == |b| && v.Object? && WellFormed(v)
    ensures RemoveManagedEnv(Inserted(b, open, close, true, Print(v, Compact, 0)), true) == Some(b)
  {
    hide RootBounds, Inserted, Print, WellFormed, Occurs, ParseMember, ParseValue;
    hide SkipWhite, SkipAsciiWhite, EnvValueStart;
    var env := Print(v, Compact, 0);
    var c := Inserted(b, open, close, true, env);
    InsertedBounds(b, open, close, true, env);
    InsertedPieces(b, open, close, true, env);
    InsertedTail(b, open, close, true, env);
    EnvMemberRead(c, open + 1, v);
    SoleMemberText(b, open, close, env);
    SoleEnvValueStart(c, open);
    assert SkipAsciiWhite(c, open + 7 + |env|) >= close + 6 + |env|;
  }

  lemma SoleEnvValueStart(c: Octets, open: nat)
    requires open + 7 < |c| && c[open + 1..open + 6] == [QUOTE] + ENV + [QUOTE] && c[open + 1] == QUOTE
    requires c[open + 6] == COLON && c[open + 7] == OPEN_BRACE
    ensures SkipAsciiWhite(c, open + 1) == open + 1 && EnvValueStart(c, open + 1) == Some(open + 7)
  {
    SkipAsciiWhiteIs(c, open + 1, open + 1);
    SkipAsciiWhiteIs(c, open + 6, open + 6);
    SkipAsciiWhiteIs(c, open + 7, open + 7);
  }

  lemma SoleMemberText(b: Octets, open: nat, close: nat, env: Octets)
    requires open < close < |b|
    ensures var c := Inserted(b, open, close, true, env);
            && |c| == |b| + 6 + |env| && c[open + 1..open + 6] == [QUOTE] + ENV + [QUOTE]
            && c[open + 1] == QUOTE && c[open + 6] == COLON
            && c[..open + 1] + c[open + 7 + |env|..] == b
  {}

  // ---- the values the service writes are strings, and strings never contain the member text

  ghost predicate Texts(owned: Owned) {
    && (owned.baseUrl.Some? ==> owned.baseUrl.value.Str?)
    && (owned.authToken.Some? ==> owned.authToken.value.Str?)
    && (owned.model.Some? ==> owned.model.value.Str?)
    && (owned.apiKey.Some? ==> owned.apiKey.value.Str?)
  }

  /** In a printed string a quote behind a comma is the closing one. */
  lemma {:induction false} QuoteBehindComma(text: Octets, p: nat)
    requires 0 < p < |PrintString(text)| && PrintString(text)[p] == QUOTE && PrintString(text)[p - 1] == COMMA
    ensures p == |PrintString(text)| - 1
    decreases |text|
  {
    if text != [] {
      var head := EscapeByte(text[0]);
      if p < |head| {
        EscapeShape(text[0], p);
      } else if p == |head| {
        if text[1..] != [] {
          EscapeStart(text[1..]);
        }
      } else {
        QuoteBehindComma(text[1..], p - |head|);
      }
    }
  }

  lemma EscapeShape(c: byte, p: nat)
    requires 0 < p < |EscapeByte(c)|
    ensures EscapeByte(c)[p] != QUOTE || EscapeByte(c)[p - 1] != COMMA
  {}

  lemma EscapeStart(text: Octets)
    requires text != []
    ensures PrintString(text)[0] != QUOTE
  {}

  lemma {:induction false} LastIsQuote(text: Octets)
    ensures var p := PrintString(text); p[|p| - 1] == QUOTE
    decreases |text|
  {
    if text != [] {
      LastIsQuote(text[1..]);
    }
  }

  /** No comma, quote, `e` in sequence at any position; and neither a quote and an `e` at the start. */
  ghost predicate Quiet(t: Octets) {
    && (forall k {:trigger t[k]} :: 0 <= k < |t| - 2 && t[k] == COMMA && t[k + 1] == QUOTE ==> t[k + 2] != 0x65)
    && |t| >= 2 && t[0] == QUOTE && t[1] != 0x65 && t[|t| - 1] == QUOTE
  }

  lemma QuietField(key: Octets, text: Octets, field: Octets)
    requires key != [] && key[0] == 0x41
    requires field == [QUOTE] + PrintString(key) + [COLON] + [QUOTE] + PrintString(text)
    ensures Quiet(field)
  {
    hide EscapeByte, PrintString;
    var k, v := PrintString(key), PrintString(text);
    KeyStart(key);
    LastIsQuote(text);
    LastIsQuote(key);
    assert field[1] == k[0];
    forall p | 0 <= p < |field| - 2 && field[p] == COMMA && field[p + 1] == QUOTE ensures field[p + 2] != 0x65 {
      if 0 < p <= |k| {
        assert field[p] == k[p - 1];
        if p < |k| {
          assert field[p + 1] == k[p];
          QuoteBehindComma(key, p);
        }
      } else if p >= |k| + 3 {
        assert field[p] == v[p - (|k| + 3)] && field[p + 1] == v[p + 1 - (|k| + 3)];
        QuoteBehindComma(text, p + 1 - (|k| + 3));
      }
    }
  }

  lemma KeyStart(key: Octets)
    requires key != [] && key[0] == 0x41
    ensures PrintString(key)[0] == 0x41
  {}

  lemma QuietJoin(left: Octets, right: Octets)
    requires Quiet(left) && Quiet(right)
    ensures Quiet(left + [COMMA] + right)
  {
    var t := left + [COMMA] + right;
    forall k | 0 <= k < |t| - 2 && t[k] == COMMA && t[k + 1] == QUOTE ensures t[k + 2] != 0x65 {
      if k < |left| {
        assert t[k] == left[k];
        assert k + 1 < |left| ==> t[k + 1] == left[k + 1];
        assert k + 2 < |left| ==> t[k + 2] == left[k + 2];
      } else if k == |left| {
        assert t[k + 2] == right[1];
      } else {
        var j := k - |left| - 1;
        assert t[k] == right[j] && t[k + 1] == right[j + 1] && t[k + 2] == right[j + 2];
      }
    }
  }

  lemma {:induction false} QuietFields(v: Value, keys: seq<Octets>, depth: nat)
    requires v.Object? && keys != []
    requires forall k <- keys :: k in v.fields && v.fields[k].Str? && |k| > 0 && k[0] == 0x41
    ensures Quiet(PrintFields(v, keys, Compact, depth))
    decreases |keys|
  {
    hide PrintString, Quiet, PrintFields, Print;
    PrintFieldsIs(v, keys, Compact, depth);
    var text := v.fields[keys[0]].text;
    var field := PrintField(v, keys[0], Compact, depth);
    FieldText(v, keys[0], depth);
    QuietField(keys[0], text, field);
    if 1 < |keys| {
      QuietFields(v, keys[1..], depth);
      QuietJoin(field, PrintFields(v, keys[1..], Compact, depth));
    }
  }

  lemma FieldText(v: Value, key: Octets, depth: nat)
    requires v.Object? && key in v.fields && v.fields[key].Str?
    ensures PrintField(v, key, Compact, depth)
            == [QUOTE] + PrintString(key) + [COLON] + [QUOTE] + PrintString(v.fields[key].text)
  {
    hide PrintString;
    var t := PrintString(v.fields[key].text);
    assert Print(v.fields[key], Compact, depth) == [QUOTE] + t;
    assert [] + [QUOTE] + PrintString(key) + [COLON] + [] + ([QUOTE] + t)
           == [QUOTE] + PrintString(key) + [COLON] + [QUOTE] + t;
  }

  lemma OwnedKeysStart(ownership: Ownership)
    ensures forall k: Octets :: k in OwnedKeys(ownership) ==> |k| > 0 && k[0] == 0x41
  {}

  lemma TextObjectContainsNoMember(v: Value)
    requires v.Object? && forall k <- v.fields :: v.fields[k].Str? && |k| > 0 && k[0] == 0x41
    ensures !Contains(Print(v, Compact, 0), ENV_MEMBER)
  {
    hide Print, PrintFields, SortedKeys, Quiet, StartsAt, Gap, Contains;
    PrintIs(v, Compact, 0);
    if v.fields == map[] {
      EmptyObjectContainsNoMember();
    } else {
      var keys := SortedKeys(v.fields.Keys);
      assert |v.fields.Keys| != 0;
      QuietFields(v, keys, 1);
      QuietInBraces(PrintFields(v, keys, Compact, 1), Print(v, Compact, 0));
    }
  }

  lemma EmptyObjectContainsNoMember()
    ensures !Contains([OPEN_BRACE, CLOSE_BRACE], ENV_MEMBER)
  {}

  /** The printed `env` of string values never contains the member text, whatever the strings are. */
  lemma TextsContainNoMember(owned: Owned, ownership: Ownership)
    requires Texts(owned)
    ensures !Contains(EnvText(owned, ownership), ENV_MEMBER)
  {
    hide Print, OwnedKeys, OwnedFields, Contains, Texts;
    OwnedKeysStart(ownership);
    TextFields(owned, ownership);
    TextObjectContainsNoMember(EnvValue(owned, ownership));
  }

  lemma TextFields(owned: Owned, ownership: Ownership)
    requires Texts(owned)
    ensures var fields := OwnedFields(owned, ownership); forall k <- fields :: fields[k].Str?
  {
    hide OwnedFields, Ascii;
    forall k <- OwnedFields(owned, ownership) ensures OwnedFields(owned, ownership)[k].Str? {
      OwnedFieldIs(owned, ownership, k);
    }
  }

  lemma QuietInBraces(t: Octets, text: Octets)
    requires Quiet(t) && text == [OPEN_BRACE] + t + Gap(Compact, 0) + [CLOSE_BRACE]
    ensures !Contains(text, ENV_MEMBER)
  {
    hide StartsAt;
    forall k: nat | k + 7 <= |text| ensures !StartsAt(text, k, ENV_MEMBER) {
      if StartsAt(text, k, ENV_MEMBER) {
        EnvMemberBytes(text, k);
        assert false;
      }
    }
  }

  // ---- the edits of a whole takeover and its reversal

  /**
    Taking over a document without `env` and giving it back: the inserted text means the applied
    document, and the reversal restores the original bytes exactly when no owned value smuggles
    the member text in (or the document was empty).
  */
  lemma InsertThenRemove(b: Octets, root: Root, desired: Owned, nothing: Owned, ownership: Ownership)
    requires ParseDocument(b) == Some(Object(root)) && ENV !in root
    requires HasValues(desired, ownership) && WellFormedOwned(desired) && !HasValues(nothing, ownership)
    ensures ReversibleEdit(b, root, desired, ownership).Some?
    ensures var c := ReversibleEdit(b, root, desired, ownership).value;
            var applied := Applied(root, desired, ownership);
            && ParseDocument(c) == Some(Object(applied))
            && (ReversibleEdit(c, applied, nothing, ownership) == Some(b)
                <==> root == map[] || !Contains(EnvText(desired, ownership), ENV_MEMBER))
    ensures Texts(desired) ==> !Contains(EnvText(desired, ownership), ENV_MEMBER)
  {
    hide ParseDocument, Contains, RemoveManagedEnv, Inserted, OwnedFields, Print, RootBounds, WellFormed, Applied;
    InsertMeansApply(b, root, desired, ownership);
    AppliedWithoutEnv(root, desired, ownership);
    EnvValueWellFormed(desired, ownership);
    RemoveInserted(b, root, EnvValue(desired, ownership));
    SizeWithEnv(root, EnvValue(desired, ownership));
    if Texts(desired) {
      TextsContainNoMember(desired, ownership);
    }
  }

  lemma SizeWithEnv(root: Root, v: Value)
    requires ENV !in root
    ensures |root[ENV := v]| == 1 <==> root == map[]
  {
    assert root[ENV := v].Keys == root.Keys + {ENV};
    assert |root[ENV := v].Keys| == |root.Keys| + 1;
    assert |root.Keys| == 0 <==> root == map[];
  }

  /** A document whose `env` is followed by a managed one: removing the second brings the first back. */
  lemma DuplicateEnvComesBack(b: Octets, root: Root, v: Value)
    requires ParseDocument(b) == Some(Object(root)) && ENV in root && |root| > 1
    requires v.Object? && v.fields != map[] && WellFormed(v) && !Contains(Print(v, Compact, 0), ENV_MEMBER)
    ensures RootBounds(b).Some?
    ensures var c := Inserted(b, RootBounds(b).value.0, RootBounds(b).value.1, false, Print(v, Compact, 0));
            && ParseDocument(c) == Some(Object(root[ENV := v]))
            && RemoveManagedEnv(c, |root[ENV := v]| == 1) == Some(b)
            && root != root[ENV := v] - {ENV}
  {
    hide ParseDocument, ParseObject, Contains, RemoveManagedEnv, Inserted, RootBounds, Print, WellFormed;
    TextBounds(b, root);
    var (open, close) := RootBounds(b).value;
    InsertAfterMembers(b, root, open, close, v);
    RemoveInserted(b, root, v);
    assert root[ENV := v].Keys == root.Keys;
    assert |root[ENV := v].Keys| == |root.Keys|;
  }

  const A: Octets := [0x61]

  const NOTHING_OWNED: Owned := Owned(None, None, None, None)

  /**
    Such a document exists: `{"a":null,"env":null}` with a second `env` of owned keys only behind it.
    Taking the owned state away selects the byte removal, whose result is not the applied document.
  */
  lemma DuplicateEnvExample() returns (c: Octets, root: Root, uncovered: Octets, found: Root)
    ensures ParseDocument(c) == Some(Object(root)) && Accepted(root)
    ensures ReversibleEdit(c, root, NOTHING_OWNED, LegacyThree) == Some(uncovered)
    ensures ParseDocument(uncovered) == Some(Object(found)) && found != Applied(root, NOTHING_OWNED, LegacyThree)
  {
    hide ParseDocument, Print, Contains, PrintString, OwnedFields, RemoveManagedEnv, Inserted, RootBounds, WellFormed, Ascii;
    found := map[A := Null, ENV := Null];
    assert found.Keys == {A, ENV} && |found.Keys| == 2;
    uncovered := Print(Object(found), Compact, 0);
    assert WellFormed(Object(found)) by { NullsWellFormed(found); }
    DocumentPrinted(Object(found), Compact);
    var owned := Owned(None, None, Some(Str([])), None);
    TextsContainNoMember(owned, LegacyThree);
    var v := EnvValue(owned, LegacyThree);
    assert WellFormedOwned(owned) by { EmptyTextWellFormed(); }
    EnvValueWellFormed(owned, LegacyThree);
    OnlyModel(Str([]));
    DuplicateEnvComesBack(uncovered, found, v);
    c := Inserted(uncovered, RootBounds(uncovered).value.0, RootBounds(uncovered).value.1, false, Print(v, Compact, 0));
    root := found[ENV := v];
    OwnedKeysRemoved(root);
  }

  lemma NullsWellFormed(root: Root)
    requires forall key <- root :: root[key] == Null
    ensures WellFormed(Object(root))
  {}

  lemma OnlyModel(value: Value)
    ensures OwnedFields(Owned(None, None, Some(value), None), LegacyThree) == map[MODEL_KEY := value]
  {}

  /** A document whose `env` holds owned keys only has none left once they are taken away. */
  lemma OwnedKeysRemoved(root: Root)
    requires ENV in root && root[ENV].Object? && root[ENV].fields.Keys <= OwnedKeys(LegacyThree)
    ensures Applied(root, NOTHING_OWNED, LegacyThree) == root - {ENV} && !HasValues(NOTHING_OWNED, LegacyThree)
  {
    hide Ascii;
    assert root[ENV].fields - OwnedKeys(LegacyThree) == map[];
    assert OwnedFields(NOTHING_OWNED, LegacyThree) == map[];
  }

  /** The `env` of an owned state that sets only the base URL. */
  lemma OnlyBaseUrl(value: Value)
    ensures OwnedFields(Owned(Some(value), None, None, None), LegacyThree) == map[BASE_URL_KEY := value]
  {}

  lemma OnlyBaseUrlText(inner: Value)
    ensures var owned := Owned(Some(inner), None, None, None);
            EnvText(owned, LegacyThree)
            == [OPEN_BRACE] + ([QUOTE] + PrintString(BASE_URL_KEY) + [COLON] + Print(inner, Compact, 1)) + [CLOSE_BRACE]
  {
    hide Print, PrintFields, PrintString, SortedKeys, OwnedFields, Ascii;
    OnlyBaseUrl(inner);
    SingleFieldText(BASE_URL_KEY, inner);
  }

  lemma SingleFieldText(key: Octets, inner: Value)
    ensures Print(Object(map[key := inner]), Compact, 0)
            == [OPEN_BRACE] + ([QUOTE] + PrintString(key) + [COLON] + Print(inner, Compact, 1)) + [CLOSE_BRACE]
  {
    hide Print, PrintFields, PrintString, SortedKeys;
    var v := Object(map[key := inner]);
    assert v.fields.Keys == {key};
    SortedSingle(key);
    PrintIs(v, Compact, 0);
    PrintFieldsIs(v, [key], Compact, 1);
    CompactField(v, key, 1);
  }

  lemma CompactField(v: Value, key: Octets, depth: nat)
    requires v.Object? && key in v.fields
    ensures PrintField(v, key, Compact, depth)
            == [QUOTE] + PrintString(key) + [COLON] + Print(v.fields[key], Compact, depth)
  {
    hide Print, PrintString;
    assert [] + [QUOTE] + PrintString(key) + [COLON] + [] == [QUOTE] + PrintString(key) + [COLON];
  }

  /** An owned value that is itself an object with an `env` behind another member defeats the reversal. */
  lemma EmbeddedMemberExample() returns (owned: Owned)
    ensures WellFormedOwned(owned) && HasValues(owned, LegacyThree)
    ensures Contains(EnvText(owned, LegacyThree), ENV_MEMBER)
  {
    hide Print, PrintString, Contains, EnvText, Ascii;
    var inner := Object(map[A := Null, ENV := Null]);
    owned := Owned(Some(inner), None, None, None);
    assert WellFormed(inner) by {
      assert WellFormed(Null);
    }
    OnlyBaseUrlText(inner);
    InnerText(inner);
    var head, p := [QUOTE] + PrintString(BASE_URL_KEY) + [COLON], Print(inner, Compact, 1);
    ContainsWithin(head, p, []);
    assert head + p + [] == head + p;
    ContainsWithin([OPEN_BRACE], head + p, [CLOSE_BRACE]);
  }

  lemma ContainsWithin(left: Octets, middle: Octets, right: Octets)
    requires Contains(middle, ENV_MEMBER)
    ensures Contains(left + middle + right, ENV_MEMBER)
  {
    var k: nat :| k + 7 <= |middle| && StartsAt(middle, k, ENV_MEMBER);
    var t := left + middle + right;
    assert t[|left| + k..|left| + k + 7] == middle[k..k + 7];
    assert StartsAt(t, |left| + k, ENV_MEMBER);
  }

  lemma SortedSingle(key: Octets)
    ensures SortedKeys({key}) == [key]
  {
    assert {key} - {key} == {};
  }

  lemma SortedPair()
    ensures SortedKeys({A, ENV}) == [A, ENV]
  {
    hide SortedKeys;
    var r := SortedKeys({A, ENV});
    assert |{A, ENV}| == 2;
    assert !AtMost(ENV, A) && AtMost(A, ENV);
    assert r[0] in r && r[1] in r;
    assert AtMost(r[0], r[1]);
  }

  /** The two members of that object, printed. */
  lemma InnerMembers(inner: Value)
    requires inner == Object(map[A := Null, ENV := Null])
    ensures Print(inner, Compact, 1)
            == [OPEN_BRACE] + (PrintField(inner, A, Compact, 2) + [COMMA] + PrintField(inner, ENV, Compact, 2)) + [CLOSE_BRACE]
  {
    hide Print, PrintFields, PrintField, PrintString, SortedKeys;
    SortedPair();
    assert inner.fields.Keys == {A, ENV};
    PrintIs(inner, Compact, 1);
    assert [A, ENV][1..] == [ENV];
    PrintFieldsIs(inner, [A, ENV], Compact, 2);
    PrintFieldsIs(inner, [ENV], Compact, 2);
    EmptyGap(PrintField(inner, A, Compact, 2) + [COMMA] + PrintField(inner, ENV, Compact, 2));
  }

  lemma EmptyGap(middle: Octets)
    ensures [OPEN_BRACE] + middle + [] + [CLOSE_BRACE] == [OPEN_BRACE] + middle + [CLOSE_BRACE]
  {}

  lemma InnerText(inner: Value)
    requires inner == Object(map[A := Null, ENV := Null])
    ensures Contains(Print(inner, Compact, 1), ENV_MEMBER)
  {
    hide Print, PrintFields, PrintField, PrintString, Contains, SortedKeys;
    InnerMembers(inner);
    var first, rest, tail := PrintField(inner, A, Compact, 2), PrintField(inner, ENV, Compact, 2), Print(Null, Compact, 2);
    EnvKeyText();
    CompactField(inner, ENV, 2);
    assert first + [COMMA] + rest == first + ENV_MEMBER + tail;
    ContainsItself();
    ContainsWithin(first, ENV_MEMBER, tail);
    ContainsWithin([OPEN_BRACE], first + [COMMA] + rest, [CLOSE_BRACE]);
  }

  lemma ContainsItself()
    ensures Contains(ENV_MEMBER, ENV_MEMBER)
  {
    assert StartsAt(ENV_MEMBER, 0, ENV_MEMBER);
  }
}
