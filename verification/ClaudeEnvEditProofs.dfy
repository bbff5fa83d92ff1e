/** The byte edits mean what the document edit means, and undo each other byte for byte. */
module ClaudeEnvEditProofs {
  import opened Bytes
  import opened Json
  import opened JsonStability
  import opened JsonPrinter
  import opened JsonRoundTrip
  import opened JsonMembers
  import opened ClaudeDocument
  import opened ClaudeEnvEdit

  // ---- the root object's braces

  lemma {:induction false} TrimEndIs(b: Octets, i: nat, r: nat)
    requires r <= i <= |b| && 0 < r && !IsAsciiWhite(b[r - 1])
    requires forall k :: r <= k < i ==> IsAsciiWhite(b[k])
    ensures TrimEnd(b, i) == r
    decreases i - r
  {
    if r < i {
      TrimEndIs(b, i - 1, r);
    }
  }

  lemma {:induction false} SkipAsciiWhiteIs(b: Octets, i: nat, r: nat)
    requires i <= r <= |b| && (r < |b| ==> !IsAsciiWhite(b[r]))
    requires forall k :: i <= k < r ==> IsAsciiWhite(b[k])
    ensures SkipAsciiWhite(b, i) == r
    decreases r - i
  {
    if i < r {
      SkipAsciiWhiteIs(b, i + 1, r);
    }
  }

  lemma ObjectEnds(b: Octets, i: nat)
    requires i <= |b| && ParseObject(b, i).Some?
    ensures b[ParseObject(b, i).value.1 - 1] == CLOSE_BRACE
  {
    hide ParseMembers, FromMembers;
    var t := SkipWhite(b, i);
    if !(t < |b| && b[t] == CLOSE_BRACE) {
      ParsedReaches(b, i);
    }
  }

  /** The braces found by trimming ASCII white space are the braces of the parsed root object. */
  lemma TextBounds(b: Octets, root: Root)
    requires ParseDocument(b) == Some(Object(root))
    ensures RootBounds(b).Some?
    ensures var (open, close) := RootBounds(b).value;
            && SkipWhite(b, 0) == open && ParseObject(b, open + 1) == Some((Object(root), close + 1))
            && SkipWhite(b, close + 1) == |b| && open < close
  {
    hide ParseObject, ParseArray, ParseString, ParseWord;
    var open := SkipWhite(b, 0);
    OnlyBraceOpensObject(b, open);
    var end := ParseValue(b, 0).value.1;
    ObjectEnds(b, open + 1);
    SkipAsciiWhiteIs(b, 0, open);
    TrimEndIs(b, |b|, end);
  }

  lemma OnlyBraceOpensObject(b: Octets, s: nat)
    requires s < |b| && ParseAt(b, s).Some? && ParseAt(b, s).value.0.Object?
    ensures b[s] == OPEN_BRACE && ParseAt(b, s) == ParseObject(b, s + 1)
  {
    hide ParseObject, ParseString, ParseItems;
  }

  /** A text with these braces around a parsed object is a document. */
  lemma DocumentIs(c: Octets, open: nat, root: Root, end: nat)
    requires open < |c| && c[open] == OPEN_BRACE && SkipWhite(c, 0) == open
    requires ParseObject(c, open + 1) == Some((Object(root), end)) && SkipWhite(c, end) == |c|
    ensures ParseDocument(c) == Some(Object(root))
  {
    hide ParseObject, ParseString, ParseArray, ParseWord;
    assert ParseAt(c, open) == ParseObject(c, open + 1);
    assert ParseValue(c, 0) == ParseAt(c, open);
  }

  // ---- the member ,"env":<value>

  lemma EnvKeyText()
    ensures PrintString(ENV) == [0x65, 0x6E, 0x76, QUOTE]
    ensures ENV_MEMBER == [COMMA] + [QUOTE] + PrintString(ENV) + [COLON]
  {
    assert ENV[1..] == [0x6E, 0x76] && ENV[2..] == [0x76];
    assert PrintString(ENV[2..]) == [0x76, QUOTE];
  }

  /** `"env":` standing at `i` is read as the key, and the value starts right behind it. */
  lemma EnvKeyRead(c: Octets, i: nat)
    requires Occurs(c, i, ENV_MEMBER[1..])
    ensures ParseKey(c, i) == Some((ENV, i + 6))
  {
    hide ParseString, ParseKey, PrintString, Occurs;
    EnvKeyText();
    var key := PrintString(ENV);
    assert ENV_MEMBER[1..] == [QUOTE] + key + [COLON];
    Split3(c, i, [QUOTE], key, [COLON]);
    OccursAt(c, i, [QUOTE], 0);
    OccursAt(c, i + 5, [COLON], 0);
    SkipWhiteIs(c, i, i);
    KeyRead(c, i, i, ENV, i + 5);
  }

  /** `"env":` and a printed object, read as one member. */
  lemma EnvMemberRead(c: Octets, i: nat, v: Value)
    requires v.Object? && WellFormed(v)
    requires Occurs(c, i, ENV_MEMBER[1..]) && Occurs(c, i + 6, Print(v, Compact, 0))
    requires EndsNumber(c, i + 6 + |Print(v, Compact, 0)|)
    ensures var q := i + 6 + |Print(v, Compact, 0)|;
            && ParseMember(c, i) == Some((ENV, v, SkipWhite(c, q)))
            && ParseValue(c, i + 6) == Some((v, q))
            && c[i + 6] == OPEN_BRACE
  {
    hide ParseKey, ParseAt, ParseMember, ParseValue, Print, PrintFields, PrintString, SortedKeys, Occurs, WellFormed, SkipWhite;
    EnvKeyRead(c, i);
    PrintIs(v, Compact, 0);
    var p := Print(v, Compact, 0);
    assert p[0] == OPEN_BRACE;
    OccursAt(c, i + 6, p, 0);
    SkipWhiteIs(c, i + 6, i + 6);
    ValuePrinted(v, Compact, 0, c, i + 6);
    ItemRead(c, i + 6, v, i + 6 + |p|);
    MemberRead(c, i, ENV, i + 6, v, i + 6 + |p|);
  }

  // ---- insertion

  ghost predicate WellFormedOwned(owned: Owned) {
    && (owned.baseUrl.Some? ==> WellFormed(owned.baseUrl.value))
    && (owned.authToken.Some? ==> WellFormed(owned.authToken.value))
    && (owned.model.Some? ==> WellFormed(owned.model.value))
    && (owned.apiKey.Some? ==> WellFormed(owned.apiKey.value))
  }

  lemma EmptyTextWellFormed()
    ensures WellFormed(Str([]))
  {}

  ghost function EnvValue(owned: Owned, ownership: Ownership): Value { Object(OwnedFields(owned, ownership)) }

  lemma EnvValueWellFormed(owned: Owned, ownership: Ownership)
    requires WellFormedOwned(owned)
    ensures WellFormed(EnvValue(owned, ownership))
  {
    hide OwnedFields;
    var fields := OwnedFields(owned, ownership);
    forall key | key in fields ensures WellFormed(fields[key]) {
      OwnedFieldIs(owned, ownership, key);
    }
  }

  lemma AppliedWithoutEnv(root: Root, owned: Owned, ownership: Ownership)
    requires ENV !in root && HasValues(owned, ownership)
    ensures Applied(root, owned, ownership) == root[ENV := EnvValue(owned, ownership)]
    ensures OwnedFields(owned, ownership) != map[]
  {
    var fields := OwnedFields(owned, ownership);
    assert fields != map[] by {
      OwnedFieldIs(owned, ownership, BASE_URL_KEY);
      OwnedFieldIs(owned, ownership, AUTH_TOKEN_KEY);
      OwnedFieldIs(owned, ownership, MODEL_KEY);
      OwnedFieldIs(owned, ownership, API_KEY);
      KeysDiffer();
    }
    assert map[] - OwnedKeys(ownership) + fields == fields;
  }

  /** Where the pieces of the edited text stand. */
  lemma InsertedPieces(b: Octets, open: nat, close: nat, rootIsEmpty: bool, env: Octets)
    requires open < close < |b|
    ensures var c := Inserted(b, open, close, rootIsEmpty, env);
            var at := if rootIsEmpty then open + 1 else close + 1;
            && |c| == |b| + |env| + (if rootIsEmpty then 6 else 7)
            && Agree(b, c, 0, if rootIsEmpty then open + 1 else close)
            && Occurs(c, at, ENV_MEMBER[1..]) && Occurs(c, at + 6, env)
            && (!rootIsEmpty ==> c[close] == COMMA)
  {
    var c := Inserted(b, open, close, rootIsEmpty, env);
    var at := if rootIsEmpty then open + 1 else close + 1;
    assert c[at..at + 6] == ENV_MEMBER[1..];
    assert c[at + 6..at + 6 + |env|] == env;
    OccursSlice(c, at, ENV_MEMBER[1..]);
    OccursSlice(c, at + 6, env);
  }

  lemma InsertedSuffix(b: Octets, open: nat, close: nat, rootIsEmpty: bool, env: Octets)
    requires open < close < |b|
    ensures var c := Inserted(b, open, close, rootIsEmpty, env);
            var from := if rootIsEmpty then open + 1 else close;
            var q := if rootIsEmpty then open + 7 + |env| else close + 7 + |env|;
            q <= |c| && b[from..] == c[q..]
  {}

  lemma TailShift(b: Octets, c: Octets, i: nat, j: nat, k: nat)
    requires i <= k <= |b| && j <= |c| && b[i..] == c[j..]
    ensures |c| - j == |b| - i && b[k..] == c[j + (k - i)..]
    ensures k < |b| ==> b[k] == c[j + (k - i)]
  {
    assert |b[i..]| == |c[j..]|;
    assert b[k..] == b[i..][k - i..] && c[j + (k - i)..] == c[j..][k - i..];
    if k < |b| {
      assert b[k] == b[i..][k - i] && c[j + (k - i)] == c[j..][k - i];
    }
  }

  lemma {:induction false} SkipWhiteShift(b: Octets, c: Octets, i: nat, j: nat)
    requires i <= |b| && j <= |c| && b[i..] == c[j..]
    ensures SkipWhite(c, j) - j == SkipWhite(b, i) - i
    decreases |b| - i
  {
    if i < |b| {
      assert b[i] == b[i..][0] == c[j..][0] == c[j];
      assert b[i + 1..] == b[i..][1..] == c[j..][1..] == c[j + 1..];
      if IsWhite(b[i]) {
        SkipWhiteShift(b, c, i + 1, j + 1);
      }
    } else {
      assert |b[i..]| == 0;
    }
  }

  /** A text ending in white space, the closing brace and white space, standing behind `q` in `c`. */
  lemma TailRead(b: Octets, from: nat, close: nat, c: Octets, q: nat)
    requires from <= close < |b| && q <= |c| && b[from..] == c[q..] && b[close] == CLOSE_BRACE
    requires SkipWhite(b, from) == close && SkipWhite(b, close + 1) == |b|
    ensures var shut := q + (close - from);
            && shut < |c| && c[shut] == CLOSE_BRACE && SkipWhite(c, q) == shut && EndsNumber(c, q)
            && SkipWhite(c, shut + 1) == |c|
  {
    hide SkipWhite;
    SkipWhiteShift(b, c, from, q);
    TailShift(b, c, from, q, from);
    TailShift(b, c, from, q, close);
    TailShift(b, c, from, q, close + 1);
    SkipWhiteShift(b, c, close + 1, q + (close + 1 - from));
    assert from == close || IsWhite(b[from]);
  }

  /** What follows the inserted member: white space, the closing brace, white space. */
  lemma InsertedTail(b: Octets, open: nat, close: nat, rootIsEmpty: bool, env: Octets)
    requires open < close < |b| && b[close] == CLOSE_BRACE && SkipWhite(b, close + 1) == |b|
    requires rootIsEmpty ==> SkipWhite(b, open + 1) == close
    ensures var c := Inserted(b, open, close, rootIsEmpty, env);
            var q := if rootIsEmpty then open + 7 + |env| else close + 7 + |env|;
            var shut := if rootIsEmpty then close + 6 + |env| else q;
            && q <= shut < |c| && c[shut] == CLOSE_BRACE && SkipWhite(c, q) == shut && EndsNumber(c, q)
            && SkipWhite(c, shut + 1) == |c|
  {
    hide Inserted, SkipWhite, EndsNumber;
    var c := Inserted(b, open, close, rootIsEmpty, env);
    InsertedSuffix(b, open, close, rootIsEmpty, env);
    if rootIsEmpty {
      TailRead(b, open + 1, close, c, open + 7 + |env|);
    } else {
      SkipWhiteIs(b, close, close);
      TailRead(b, close, close, c, close + 7 + |env|);
    }
  }

  /** The byte insertion parses to the document the tree edit produces. */
  lemma InsertMeansApply(b: Octets, root: Root, owned: Owned, ownership: Ownership)
    requires ParseDocument(b) == Some(Object(root)) && ENV !in root
    requires HasValues(owned, ownership) && WellFormedOwned(owned)
    ensures InsertManagedEnv(b, root == map[], owned, ownership).Some?
    ensures ParseDocument(InsertManagedEnv(b, root == map[], owned, ownership).value)
            == Some(Object(Applied(root, owned, ownership)))
  {
    hide ParseDocument, ParseObject, ParseMember, ParseValue, RootBounds, Print, Occurs, Inserted;
    TextBounds(b, root);
    var (open, close) := RootBounds(b).value;
    var v := EnvValue(owned, ownership);
    var env := EnvText(owned, ownership);
    EnvValueWellFormed(owned, ownership);
    AppliedWithoutEnv(root, owned, ownership);
    InsertedPieces(b, open, close, root == map[], env);
    if root == map[] {
      InsertIntoEmpty(b, root, open, close, v);
    } else {
      InsertAfterMembers(b, root, open, close, v);
    }
  }

  /** The members of a root object that is not empty. */
  lemma RootMembers(b: Octets, open: nat, close: nat, root: Root) returns (members: Members)
    requires open < close < |b| && ParseObject(b, open + 1) == Some((Object(root), close + 1)) && root != map[]
    ensures ParseMembers(b, open + 1) == Some((members, close + 1)) && FromMembers(members) == root
    ensures Reaches(b, open + 1, members, close) && b[close] == CLOSE_BRACE
  {
    hide FromMembers, ParseMember, Reaches;
    members := ParseMembers(b, open + 1).value.0;
    ParsedReaches(b, open + 1);
  }

  /** The members of the text with one more member in front of the closing brace. */
  lemma InsertedMembers(b: Octets, open: nat, close: nat, members: Members, v: Value)
    requires open < close < |b| && b[open] == OPEN_BRACE && b[close] == CLOSE_BRACE && SkipWhite(b, 0) == open
    requires Reaches(b, open + 1, members, close) && SkipWhite(b, close + 1) == |b|
    requires v.Object? && WellFormed(v)
    ensures var c := Inserted(b, open, close, false, Print(v, Compact, 0));
            var q := close + 7 + |Print(v, Compact, 0)|;
            && q < |c| && c[open] == OPEN_BRACE && SkipWhite(c, 0) == open && SkipWhite(c, q + 1) == |c|
            && ParseMembers(c, open + 1) == Some((members + [(ENV, v)], q + 1))
  {
    hide ParseDocument, ParseMember, ParseMembers, ParseValue, Print, Occurs, Inserted, WellFormed, Reaches, ParseObject, FromMembers;
    hide SkipWhite;
    var env := Print(v, Compact, 0);
    var c := Inserted(b, open, close, false, env);
    var q := close + 7 + |env|;
    InsertedPieces(b, open, close, false, env);
    InsertedTail(b, open, close, false, env);
    SkipWhiteIs(c, close, close);
    ReachesStable(b, c, open + 1, members, close);
    EnvMemberRead(c, close + 1, v);
    ReachesAppend(c, open + 1, members, close, (ENV, v), q);
    ReachesParsed(c, open + 1, members + [(ENV, v)], q);
    SkipWhiteIs(c, 0, open);
  }

  lemma InsertAfterMembers(b: Octets, root: Root, open: nat, close: nat, v: Value)
    requires open < close < |b| && b[open] == OPEN_BRACE && b[close] == CLOSE_BRACE && SkipWhite(b, 0) == open
    requires ParseObject(b, open + 1) == Some((Object(root), close + 1)) && SkipWhite(b, close + 1) == |b|
    requires root != map[] && v.Object? && WellFormed(v)
    ensures ParseDocument(Inserted(b, open, close, false, Print(v, Compact, 0))) == Some(Object(root[ENV := v]))
  {
    hide ParseDocument, ParseMembers, Print, Inserted, WellFormed, Reaches, ParseObject, FromMembers, SkipWhite;
    var members := RootMembers(b, open, close, root);
    InsertedMembers(b, open, close, members, v);
    FromAppended(members, (ENV, v));
    var c, q := Inserted(b, open, close, false, Print(v, Compact, 0)), close + 7 + |Print(v, Compact, 0)|;
    ObjectFromMembers(c, open + 1, members + [(ENV, v)], q + 1);
    DocumentIs(c, open, root[ENV := v], q + 1);
  }

  lemma FromAppended(members: Members, last: (Octets, Value))
    ensures FromMembers(members + [last]) == FromMembers(members)[last.0 := last.1]
  {
    assert (members + [last])[..|members|] == members;
  }

  lemma FromSingle(member: (Octets, Value))
    ensures FromMembers([member]) == map[member.0 := member.1]
  {
    assert [member][..0] == [];
  }

  /** A member list can only start with a quote, so the object is not the empty one. */
  lemma ObjectFromMembers(c: Octets, i: nat, members: Members, end: nat)
    requires i <= |c| && ParseMembers(c, i) == Some((members, end))
    ensures ParseObject(c, i) == Some((Object(FromMembers(members)), end))
  {
    hide ParseString, ParseValue;
    assert ParseKey(c, i).Some?;
  }

  /** The only member of a text that had none. */
  lemma InsertedOnlyMember(b: Octets, open: nat, close: nat, v: Value)
    requires open < close < |b| && b[open] == OPEN_BRACE && b[close] == CLOSE_BRACE && SkipWhite(b, 0) == open
    requires SkipWhite(b, open + 1) == close && SkipWhite(b, close + 1) == |b| && v.Object? && WellFormed(v)
    ensures var c := Inserted(b, open, close, true, Print(v, Compact, 0));
            var shut := close + 6 + |Print(v, Compact, 0)|;
            && shut < |c| && c[open] == OPEN_BRACE && SkipWhite(c, 0) == open && SkipWhite(c, shut + 1) == |c|
            && ParseMembers(c, open + 1) == Some(([(ENV, v)], shut + 1))
  {
    hide ParseDocument, ParseMember, ParseMembers, ParseValue, Print, Occurs, Inserted, WellFormed, ParseObject, FromMembers;
    hide SkipWhite;
    var env := Print(v, Compact, 0);
    var c := Inserted(b, open, close, true, env);
    InsertedPieces(b, open, close, true, env);
    InsertedTail(b, open, close, true, env);
    var shut := close + 6 + |env|;
    EnvMemberRead(c, open + 1, v);
    assert Reaches(c, open + 1, [(ENV, v)], shut);
    ReachesParsed(c, open + 1, [(ENV, v)], shut);
    SkipWhiteIs(c, 0, open);
  }

  lemma InsertIntoEmpty(b: Octets, root: Root, open: nat, close: nat, v: Value)
    requires open < close < |b| && b[open] == OPEN_BRACE && b[close] == CLOSE_BRACE && SkipWhite(b, 0) == open
    requires ParseObject(b, open + 1) == Some((Object(root), close + 1)) && SkipWhite(b, close + 1) == |b|
    requires root == map[] && v.Object? && WellFormed(v)
    ensures ParseDocument(Inserted(b, open, close, true, Print(v, Compact, 0))) == Some(Object(root[ENV := v]))
  {
    hide ParseDocument, ParseMembers, Print, Inserted, WellFormed, ParseObject, FromMembers, SkipWhite;
    EmptyObjectText(b, open, close);
    InsertedOnlyMember(b, open, close, v);
    FromSingle((ENV, v));
    var c, shut := Inserted(b, open, close, true, Print(v, Compact, 0)), close + 6 + |Print(v, Compact, 0)|;
    ObjectFromMembers(c, open + 1, [(ENV, v)], shut + 1);
    DocumentIs(c, open, root[ENV := v], shut + 1);
  }

  /** An empty root object has nothing but white space between its braces. */
  lemma EmptyObjectText(b: Octets, open: nat, close: nat)
    requires open < close < |b| && ParseObject(b, open + 1) == Some((Object(map[]), close + 1))
    ensures SkipWhite(b, open + 1) == close
  {
    var t := SkipWhite(b, open + 1);
    if !(t < |b| && b[t] == CLOSE_BRACE) {
      ParsedReaches(b, open + 1);
      var members := ParseMembers(b, open + 1).value.0;
      assert members[|members| - 1].0 in FromMembers(members);
      assert false;
    }
  }
}
