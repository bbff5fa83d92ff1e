/**
  The text a write puts into the settings file, and what it means: the applied document, unless a
  removal uncovers an earlier `env`.
*/
module ClaudeText {
  import opened Bytes
  import opened Json
  import opened JsonPrinter
  import opened JsonStability
  import opened JsonRoundTrip
  import opened JsonMembers
  import JsonGrammar
  import JsonReading
  import opened ClaudeDocument
  import opened ClaudeEnvEdit
  import opened ClaudeEnvEditProofs
  import opened ClaudeEnvRemoval
  import opened ClaudeEnvRoundTrip

  /** The bytes of the next version of the file. */
  function NextText(b: Octets, root: Root, owned: Owned, ownership: Ownership): Octets
    requires Accepted(root)
  {
    match ReversibleEdit(b, root, owned, ownership)
    case Some(c) => c
    case None => Print(Object(Applied(root, owned, ownership)), Pretty, 0)
  }

  /** Either the file is missing, or its text is this document. */
  ghost predicate TextOf(b: Octets, root: Root) {
    (b == [] && root == map[]) || ParseDocument(b) == Some(Object(root))
  }

  // ---- parsed values can be printed

  lemma {:induction false} AtWellFormed(b: Octets, s: nat)
    requires s < |b| && ParseAt(b, s).Some?
    ensures WellFormed(ParseAt(b, s).value.0)
    decreases |b| - s, 0
  {
    hide ParseString, ParseMembers, ParseItems, ParseWord, FromMembers;
    if b[s] == OPEN_BRACE {
      var t := SkipWhite(b, s + 1);
      if !(t < |b| && b[t] == CLOSE_BRACE) {
        MembersWellFormed(b, s + 1);
        FromWellFormed(ParseMembers(b, s + 1).value.0);
      }
    } else if b[s] == OPEN_BRACKET {
      var t := SkipWhite(b, s + 1);
      if !(t < |b| && b[t] == CLOSE_BRACKET) {
        ItemsWellFormed(b, s + 1);
      }
    } else if b[s] != QUOTE {
      WordWellFormed(b, s);
    }
  }

  lemma WordWellFormed(b: Octets, s: nat)
    requires s < |b| && ParseWord(b, s).Some?
    ensures WellFormed(ParseWord(b, s).value.0)
  {
    hide IsNumber;
    var end := NumberEnd(b, s);
    forall c <- b[s..end] ensures IsNumberByte(c) {
      var k :| 0 <= k < end - s && b[s..end][k] == c;
      assert c == b[s + k];
    }
  }

  lemma {:induction false} MemberWellFormed(b: Octets, i: nat)
    requires i <= |b| && ParseMember(b, i).Some?
    ensures WellFormed(ParseMember(b, i).value.1)
    decreases |b| - i, 2
  {
    hide ParseKey, ParseAt, WellFormed;
    AtWellFormed(b, SkipWhite(b, ParseKey(b, i).value.1));
  }

  lemma {:induction false} MembersWellFormed(b: Octets, i: nat)
    requires i <= |b| && ParseMembers(b, i).Some?
    ensures forall member <- ParseMembers(b, i).value.0 :: WellFormed(member.1)
    decreases |b| - i, 3
  {
    hide ParseMember, WellFormed;
    MemberWellFormed(b, i);
    var next := ParseMember(b, i).value.2;
    if b[next] == COMMA {
      MembersWellFormed(b, next + 1);
    }
  }

  lemma {:induction false} ItemsWellFormed(b: Octets, i: nat)
    requires i <= |b| && ParseItems(b, i).Some?
    ensures forall item <- ParseItems(b, i).value.0 :: WellFormed(item)
    decreases |b| - i, 3
  {
    hide ParseAt, WellFormed;
    AtWellFormed(b, SkipWhite(b, i));
    var next := SkipWhite(b, ParseValue(b, i).value.1);
    if b[next] == COMMA {
      ItemsWellFormed(b, next + 1);
    }
  }

  lemma {:induction false} FromWellFormed(members: Members)
    requires forall member <- members :: WellFormed(member.1)
    ensures forall key <- FromMembers(members) :: WellFormed(FromMembers(members)[key])
  {
    hide WellFormed;
    if members != [] {
      FromWellFormed(members[..|members| - 1]);
      assert members[|members| - 1] in members;
    }
  }

  lemma ParsedWellFormed(b: Octets, v: Value)
    requires ParseDocument(b) == Some(v)
    ensures WellFormed(v)
  {
    hide ParseAt, WellFormed;
    AtWellFormed(b, SkipWhite(b, 0));
  }

  lemma CapturedWellFormed(root: Root, ownership: Ownership)
    requires WellFormed(Object(root)) && Accepted(root)
    ensures WellFormedOwned(Capture(root, ownership))
  {
    if ENV in root {
      assert WellFormed(root[ENV]);
    }
  }

  lemma AppliedWellFormed(root: Root, owned: Owned, ownership: Ownership)
    requires WellFormed(Object(root)) && Accepted(root) && WellFormedOwned(owned)
    ensures WellFormed(Object(Applied(root, owned, ownership)))
  {
    hide OwnedFields, OwnedKeys, Ascii;
    var env := EnvOf(root) - OwnedKeys(ownership) + OwnedFields(owned, ownership);
    if ENV in root {
      assert WellFormed(root[ENV]);
    }
    EnvValueWellFormed(owned, ownership);
    assert WellFormed(Object(env));
  }

  // ---- the meaning of the next text

  /** The reversible removal is about to uncover an earlier `env` member. */
  ghost predicate Uncovers(b: Octets, root: Root, owned: Owned, ownership: Ownership) {
    && ENV in root && ReversibleEdit(b, root, owned, ownership).Some?
    && RootBounds(b).Some? && CountKey(RootMemberList(b), ENV) != 1
  }

  /** The next text parses to the applied document exactly when it does not uncover an earlier `env`. */
  lemma NextTextMeans(b: Octets, root: Root, owned: Owned, ownership: Ownership)
    requires TextOf(b, root) && Accepted(root) && WellFormedOwned(owned)
    ensures ParseDocument(NextText(b, root, owned, ownership)) == Some(Object(Applied(root, owned, ownership)))
            <==> !Uncovers(b, root, owned, ownership)
  {
    hide ParseDocument, RootBounds, RemoveManagedEnv, InsertManagedEnv, RootMemberList, CountKey, Applied, Print, WellFormed;
    if b == [] && root == map[] {
      NothingToEdit(owned, ownership);
    } else {
      ParsedWellFormed(b, Object(root));
    }
    if ReversibleEdit(b, root, owned, ownership).None? {
      assert WellFormed(Object(map[])) by {
        EmptyWellFormed();
      }
      AppliedWellFormed(root, owned, ownership);
      DocumentPrinted(Object(Applied(root, owned, ownership)), Pretty);
    } else if ENV in root {
      RemoveMeansApply(b, root, owned, ownership, ReversibleEdit(b, root, owned, ownership).value);
    } else {
      InsertMeansApply(b, root, owned, ownership);
    }
  }

  /**
    The same about texts alone: however the document was spelt before, with whatever escapes, member
    order and white space, the next text spells the applied document exactly when it uncovers nothing.
  */
  lemma NextTextSpells(before: JsonGrammar.Item, root: Root, owned: Owned, ownership: Ownership)
    requires JsonGrammar.ValidItem(before) && JsonGrammar.Meaning(before.value) == Object(root)
    requires Accepted(root) && WellFormedOwned(owned)
    ensures var b := JsonGrammar.ItemText(before);
            JsonReading.Spells(NextText(b, root, owned, ownership), Object(Applied(root, owned, ownership)))
            <==> !Uncovers(b, root, owned, ownership)
  {
    hide NextText, Uncovers, ParseDocument, JsonReading.Spells, JsonGrammar.ItemText, JsonGrammar.Meaning;
    var b := JsonGrammar.ItemText(before);
    JsonReading.DocumentSpelt(before);
    NextTextMeans(b, root, owned, ownership);
    JsonReading.ReadIffSpelt(NextText(b, root, owned, ownership), Object(Applied(root, owned, ownership)));
  }

  lemma EmptyWellFormed()
    ensures WellFormed(Object(map[]))
  {}

  lemma NothingToEdit(owned: Owned, ownership: Ownership)
    ensures ReversibleEdit([], map[], owned, ownership).None?
  {}

  /** Only a removal can uncover anything. */
  lemma WithValuesNothingUncovered(b: Octets, root: Root, owned: Owned, ownership: Ownership)
    requires HasValues(owned, ownership)
    ensures !Uncovers(b, root, owned, ownership)
  {}

  // ---- what the service writes has one `env`

  ghost predicate EnvOnce(b: Octets) {
    RootBounds(b).Some? && CountKey(RootMemberList(b), ENV) == 1
  }

  /** A text with these braces and members has these members at its root. */
  lemma RootMembersAre(c: Octets, open: nat, end: nat, members: Members)
    requires open < end <= |c| && c[open] == OPEN_BRACE && SkipWhite(c, 0) == open && SkipWhite(c, end) == |c|
    requires ParseMembers(c, open + 1) == Some((members, end))
    ensures RootBounds(c).Some? && RootMemberList(c) == members
  {
    hide ParseMembers, SkipWhite, RootBounds;
    ParsedReaches(c, open + 1);
    BoundsAre(c, open, end - 1);
  }

  lemma {:induction false} CountDistinct(v: Value, keys: seq<Octets>, key: Octets)
    requires v.Object? && forall k <- keys :: k in v.fields
    requires forall i, j :: 0 <= i < j < |keys| ==> keys[i] != keys[j]
    ensures CountKey(MembersOf(v, keys), key) == if key in keys then 1 else 0
    decreases |keys|
  {
    if keys != [] {
      var front := keys[..|keys| - 1];
      CountDistinct(v, front, key);
      assert MembersOf(v, keys)[..|keys| - 1] == MembersOf(v, front);
      assert keys == front + [keys[|keys| - 1]];
    }
  }

  lemma PrintedEnvOnce(v: Value)
    requires v.Object? && WellFormed(v) && ENV in v.fields
    ensures EnvOnce(Print(v, Pretty, 0))
  {
    hide Print, ParseMembers, ParseDocument, ParseObject, RootBounds, RootMemberList, CountKey, Occurs, SkipWhite, SortedKeys;
    hide MembersOf, FromMembers, WellFormed;
    var b := Print(v, Pretty, 0);
    assert b[0..0 + |b|] == b;
    OccursSlice(b, 0, b);
    var keys := KeysOf(v);
    ObjectMembersPrinted(v, keys, Pretty, 0, b, 0);
    SkipWhiteIs(b, 0, 0);
    SkipWhiteIs(b, |b|, |b|);
    RootMembersAre(b, 0, |b|, MembersOf(v, keys));
    CountDistinct(v, keys, ENV);
  }

  lemma InsertedEnvOnce(b: Octets, root: Root, v: Value)
    requires ParseDocument(b) == Some(Object(root)) && ENV !in root && v.Object? && WellFormed(v)
    ensures RootBounds(b).Some?
    ensures var (open, close) := RootBounds(b).value;
            EnvOnce(Inserted(b, open, close, root == map[], Print(v, Compact, 0)))
  {
    hide Print, ParseMembers, ParseDocument, ParseObject, RootBounds, RootMemberList, Inserted, SkipWhite, FromMembers;
    hide WellFormed, Reaches;
    TextBounds(b, root);
    var (open, close) := RootBounds(b).value;
    var text := Print(v, Compact, 0);
    var c := Inserted(b, open, close, root == map[], text);
    var members: Members := [];
    if root == map[] {
      EmptyObjectText(b, open, close);
      InsertedOnlyMember(b, open, close, v);
      RootMembersAre(c, open, close + 7 + |text|, [(ENV, v)]);
      assert members + [(ENV, v)] == [(ENV, v)];
    } else {
      members := RootMembers(b, open, close, root);
      CountedKey(members, ENV);
      InsertedMembers(b, open, close, members, v);
      RootMembersAre(c, open, close + 8 + |text|, members + [(ENV, v)]);
    }
    CountAppended(members, v);
  }

  lemma CountAppended(members: Members, v: Value)
    ensures CountKey(members + [(ENV, v)], ENV) == CountKey(members, ENV) + 1
  {
    assert (members + [(ENV, v)])[..|members|] == members;
  }

  /** A text written to hold owned values has exactly one `env` at its root. */
  lemma NextTextEnvOnce(b: Octets, root: Root, owned: Owned, ownership: Ownership)
    requires TextOf(b, root) && Accepted(root) && WellFormedOwned(owned) && HasValues(owned, ownership)
    ensures EnvOnce(NextText(b, root, owned, ownership))
  {
    hide ParseDocument, RootBounds, EnvOnce, Applied, Print, WellFormed, Inserted, OwnedFields;
    if b == [] && root == map[] {
      NothingToEdit(owned, ownership);
      EmptyWellFormed();
    } else {
      ParsedWellFormed(b, Object(root));
    }
    if ReversibleEdit(b, root, owned, ownership).None? {
      AppliedWellFormed(root, owned, ownership);
      AppliedHasEnv(root, owned, ownership);
      PrintedEnvOnce(Object(Applied(root, owned, ownership)));
    } else {
      EnvValueWellFormed(owned, ownership);
      InsertedEnvOnce(b, root, EnvValue(owned, ownership));
    }
  }

  lemma AppliedHasEnv(root: Root, owned: Owned, ownership: Ownership)
    requires Accepted(root) && HasValues(owned, ownership)
    ensures ENV in Applied(root, owned, ownership)
  {
    AppliedWithoutEnv(map[], owned, ownership);
    var key :| key in OwnedFields(owned, ownership);
    assert key in EnvOf(root) - OwnedKeys(ownership) + OwnedFields(owned, ownership);
  }
}
