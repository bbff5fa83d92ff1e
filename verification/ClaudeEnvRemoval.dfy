/**
  Removing the managed `env` member from a text: where the member found by its bytes can stand, and
  what the remaining text means.
*/
module ClaudeEnvRemoval {
  import opened Bytes
  import opened Json
  import opened JsonStability
  import opened JsonPrinter
  import opened JsonRoundTrip
  import opened JsonMembers
  import opened ClaudeDocument
  import opened ClaudeEnvEdit
  import opened ClaudeEnvEditProofs

  /** `,"env":` stands at `p`, a value follows, and nothing but white space separates it from `close`. */
  ghost predicate EnvTail(b: Octets, p: nat, close: nat) {
    && p + 7 <= close < |b|
    && b[p] == COMMA && b[p + 1] == QUOTE && b[p + 2] == 0x65 && b[p + 3] == 0x6E && b[p + 4] == 0x76
    && b[p + 5] == QUOTE && b[p + 6] == COLON
    && var value := ParseValue(b, SkipAsciiWhite(b, p + 7));
    && value.Some? && value.value.1 <= close
    && forall k :: value.value.1 <= k < close ==> IsAsciiWhite(b[k])
  }

  // ---- the comma of ,"env": cannot lie inside anything nested

  lemma EscapeHasNoComma(b: Octets, i: nat, p: nat)
    requires i < |b| && b[i] == BACKSLASH && ParseEscape(b, i).Some? && i <= p < ParseEscape(b, i).value.1
    ensures b[p] != COMMA
  {
    hide Utf8;
  }

  /** A comma and a quote inside a string end the string. */
  lemma {:induction false} CommaInString(b: Octets, i: nat, p: nat)
    requires i <= |b| && ParseString(b, i).Some? && i <= p < ParseString(b, i).value.1
    requires p + 1 < |b| && b[p] == COMMA && b[p + 1] == QUOTE
    ensures ParseString(b, i).value.1 == p + 2
    decreases |b| - i
  {
    hide ParseEscape;
    if b[i] != QUOTE {
      var next := ParseChar(b, i).value.1;
      if p < next {
        if b[i] == BACKSLASH {
          EscapeHasNoComma(b, i, p);
        }
      } else {
        CommaInString(b, next, p);
      }
    }
  }

  lemma WordHasNoComma(b: Octets, s: nat, p: nat)
    requires s < |b| && ParseWord(b, s).Some? && s <= p < ParseWord(b, s).value.1
    ensures b[p] != COMMA
  {
    var end := ParseWord(b, s).value.1;
    if StartsAt(b, s, TRUE) || StartsAt(b, s, FALSE) || StartsAt(b, s, NULL) {
      assert b[p] == b[s..end][p - s];
    }
  }

  /** `"env":` is read as a key, and as a string item nothing may follow. */
  lemma EnvQuoted(b: Octets, p: nat, close: nat)
    requires EnvTail(b, p, close)
    ensures ParseString(b, p + 2) == Some((ENV, p + 6))
    ensures ParseKey(b, p + 1) == Some((ENV, p + 7))
  {
    hide Occurs, ParseKey, ParseString, PrintString;
    var key := ENV_MEMBER[1..];
    assert b[p + 1..p + 1 + |key|] == key;
    OccursSlice(b, p + 1, key);
    EnvKeyRead(b, p + 1);
    EnvKeyText();
    assert b[p + 2..p + 2 + 4] == PrintString(ENV);
    OccursSlice(b, p + 2, PrintString(ENV));
    StringPrinted(ENV, b, p + 2);
  }

  lemma FormFeedStartsNothing(b: Octets, s: nat)
    requires s < |b| && ParseAt(b, s).Some?
    ensures b[s] != 0x0C
  {
    if b[s] == 0x0C {
      NotStarting(b, s, TRUE);
      NotStarting(b, s, FALSE);
      NotStarting(b, s, NULL);
    }
  }

  /** The member behind the comma, as the parser reads it. */
  lemma EnvMemberIs(b: Octets, p: nat, close: nat)
    requires EnvTail(b, p, close) && ParseMember(b, p + 1).Some?
    ensures var (w, end) := ParseValue(b, SkipAsciiWhite(b, p + 7)).value;
            ParseMember(b, p + 1) == Some((ENV, w, SkipWhite(b, end)))
  {
    hide ParseAt, ParseKey, ParseString;
    EnvQuoted(b, p, close);
    var s := SkipWhite(b, p + 7);
    FormFeedStartsNothing(b, s);
    SkipAsciiWhiteIs(b, p + 7, s);
    SkipWhiteIs(b, s, s);
  }

  /** What follows that member is the closing brace at `close`, if a comma or brace follows at all. */
  lemma EnvMemberIsLast(b: Octets, p: nat, close: nat)
    requires EnvTail(b, p, close) && ParseMember(b, p + 1).Some?
    requires var next := ParseMember(b, p + 1).value.2; next < |b| && (b[next] == COMMA || b[next] == CLOSE_BRACE)
    requires b[close] == CLOSE_BRACE
    ensures ParseMember(b, p + 1).value.2 == close
  {
    hide ParseMember, ParseValue;
    EnvMemberIs(b, p, close);
    var end := ParseValue(b, SkipAsciiWhite(b, p + 7)).value.1;
    assert SkipWhite(b, end) >= close;
  }

  lemma {:induction false} ValueClear(b: Octets, s: nat, p: nat, close: nat)
    requires EnvTail(b, p, close) && b[close] == CLOSE_BRACE
    requires s <= p && s < |b| && ParseAt(b, s).Some? && ParseAt(b, s).value.1 <= close
    ensures var end := ParseAt(b, s).value.1; end <= p || end == p + 2
    decreases |b| - s, 0
  {
    hide ParseWord, ParseString, ParseMembers, ParseItems, EnvTail, FromMembers;
    var end := ParseAt(b, s).value.1;
    if p < end {
      EnvTailComma(b, p, close);
      if b[s] == OPEN_BRACE {
        ObjectClear(b, s + 1, p, close);
      } else if b[s] == OPEN_BRACKET {
        ArrayClear(b, s + 1, p, close);
      } else if b[s] == QUOTE {
        CommaInString(b, s + 1, p);
      } else {
        WordHasNoComma(b, s, p);
      }
    }
  }

  lemma EnvTailComma(b: Octets, p: nat, close: nat)
    requires EnvTail(b, p, close)
    ensures p + 7 <= close < |b| && b[p] == COMMA && b[p + 1] == QUOTE && b[p + 2] == 0x65
  {}

  lemma {:induction false} ObjectClear(b: Octets, i: nat, p: nat, close: nat)
    requires EnvTail(b, p, close) && b[close] == CLOSE_BRACE
    requires i <= p && i <= |b| && ParseObject(b, i).Some? && ParseObject(b, i).value.1 <= close
    ensures ParseObject(b, i).value.1 <= p
    decreases |b| - i, 4
  {
    hide EnvTail, ParseMembers, FromMembers;
    EnvTailComma(b, p, close);
    var t := SkipWhite(b, i);
    if !(t < |b| && b[t] == CLOSE_BRACE) {
      MembersClear(b, i, p, close);
    }
  }

  lemma {:induction false} ArrayClear(b: Octets, i: nat, p: nat, close: nat)
    requires EnvTail(b, p, close) && b[close] == CLOSE_BRACE
    requires i <= p && i <= |b| && ParseArray(b, i).Some? && ParseArray(b, i).value.1 <= close
    ensures ParseArray(b, i).value.1 <= p
    decreases |b| - i, 4
  {
    hide EnvTail, ParseItems;
    EnvTailComma(b, p, close);
    var t := SkipWhite(b, i);
    if !(t < |b| && b[t] == CLOSE_BRACKET) {
      ItemsClear(b, i, p, close);
    }
  }

  /** The comma is not inside a key, nor between it and its value. */
  lemma KeyClear(b: Octets, i: nat, p: nat, close: nat)
    requires EnvTail(b, p, close)
    requires i <= p && i <= |b| && ParseKey(b, i).Some?
    ensures ParseKey(b, i).value.1 <= p
  {
    hide ParseString, EnvTail;
    EnvTailComma(b, p, close);
    var s := SkipWhite(b, i);
    var after := ParseString(b, s + 1).value.1;
    if s <= p < after {
      CommaInString(b, s + 1, p);
      SkipWhiteIs(b, after, after);
    }
  }

  /** The comma is not inside a member. */
  lemma {:induction false} MemberClear(b: Octets, i: nat, p: nat, close: nat)
    requires EnvTail(b, p, close) && b[close] == CLOSE_BRACE
    requires i <= p && i <= |b| && ParseMember(b, i).Some?
    requires var next := ParseMember(b, i).value.2;
             next <= close && (b[next] == COMMA || b[next] == CLOSE_BRACE)
    ensures ParseMember(b, i).value.2 <= p
    decreases |b| - i, 2
  {
    hide EnvTail, ParseKey, ParseAt;
    EnvTailComma(b, p, close);
    KeyClear(b, i, p, close);
    var start := ParseKey(b, i).value.1;
    var s := SkipWhite(b, start);
    var end := ParseValue(b, start).value.1;
    assert s <= p by {
      assert forall k :: start <= k < s ==> IsWhite(b[k]);
    }
    ValueClear(b, s, p, close);
    if end == p + 2 {
      SkipWhiteIs(b, end, end);
    }
  }

  lemma {:induction false} MembersClear(b: Octets, i: nat, p: nat, close: nat)
    requires EnvTail(b, p, close) && b[close] == CLOSE_BRACE
    requires i <= p && i <= |b| && ParseMembers(b, i).Some? && ParseMembers(b, i).value.1 <= close
    ensures ParseMembers(b, i).value.1 <= p
    decreases |b| - i, 3
  {
    hide EnvTail, ParseMember;
    EnvTailComma(b, p, close);
    var next := ParseMember(b, i).value.2;
    MemberClear(b, i, p, close);
    if b[next] == COMMA {
      if next < p {
        MembersClear(b, next + 1, p, close);
      } else {
        EnvMemberIsLast(b, p, close);
      }
    }
  }

  lemma {:induction false} ItemsClear(b: Octets, i: nat, p: nat, close: nat)
    requires EnvTail(b, p, close) && b[close] == CLOSE_BRACE
    requires i <= p && i <= |b| && ParseItems(b, i).Some? && ParseItems(b, i).value.1 <= close
    ensures ParseItems(b, i).value.1 <= p
    decreases |b| - i, 3
  {
    hide EnvTail, ParseAt;
    EnvTailComma(b, p, close);
    var s := SkipWhite(b, i);
    var end := ParseValue(b, i).value.1;
    var next := SkipWhite(b, end);
    ValueClear(b, s, p, close);
    if end == p + 2 {
      SkipWhiteIs(b, end, end);
    }
    if b[next] == COMMA {
      if next < p {
        ItemsClear(b, next + 1, p, close);
      } else {
        EnvIsNoItem(b, p, close);
      }
    }
  }

  lemma EnvIsNoItem(b: Octets, p: nat, close: nat)
    requires EnvTail(b, p, close)
    ensures ParseItems(b, p + 1).None?
  {
    hide ParseString, ParseKey;
    EnvQuoted(b, p, close);
    SkipWhiteIs(b, p + 1, p + 1);
    SkipWhiteIs(b, p + 6, p + 6);
    assert ParseAt(b, p + 1) == Some((Str(ENV), p + 6));
    assert ParseValue(b, p + 1) == Some((Str(ENV), p + 6));
  }

  // ---- removal means what the tree edit means, unless an earlier `env` comes to light

  /** In the root object the comma stands before its last member, and that member is `env`. */
  lemma {:induction false} EnvIsLastMember(b: Octets, i: nat, p: nat, close: nat) returns (before: Members)
    requires EnvTail(b, p, close) && b[close] == CLOSE_BRACE
    requires i <= p && i <= |b| && ParseMembers(b, i).Some? && ParseMembers(b, i).value.1 == close + 1
    ensures Reaches(b, i, before, p)
    ensures var w := ParseValue(b, SkipAsciiWhite(b, p + 7)).value.0;
            ParseMembers(b, i).value.0 == before + [(ENV, w)]
    decreases |b| - i
  {
    hide EnvTail, ParseMember, ParseValue;
    EnvTailComma(b, p, close);
    var (key, value, next) := ParseMember(b, i).value;
    MemberClear(b, i, p, close);
    assert b[next] == COMMA;
    if next < p {
      var rest := EnvIsLastMember(b, next + 1, p, close);
      before := [(key, value)] + rest;
      assert before[1..] == rest;
    } else {
      before := [(key, value)];
      EnvMemberIs(b, p, close);
      EnvMemberIsLast(b, p, close);
    }
  }

  ghost function CountKey(members: Members, key: Octets): nat {
    if members == [] then 0
    else CountKey(members[..|members| - 1], key) + if members[|members| - 1].0 == key then 1 else 0
  }

  lemma {:induction false} CountedKey(members: Members, key: Octets)
    ensures key in FromMembers(members) <==> CountKey(members, key) > 0
  {
    if members != [] {
      CountedKey(members[..|members| - 1], key);
    }
  }

  /** The members of the root object of a document. */
  ghost function RootMemberList(b: Octets): Members
    requires RootBounds(b).Some?
  {
    var open := RootBounds(b).value.0;
    if ParseMembers(b, open + 1).Some? then ParseMembers(b, open + 1).value.0 else []
  }

  /** The document whose only own members are `env`'s owned keys becomes the one without `env`. */
  lemma AppliedNothing(root: Root, desired: Owned, ownership: Ownership)
    requires ENV in root && root[ENV].Object? && root[ENV].fields.Keys <= OwnedKeys(ownership)
    requires !HasValues(desired, ownership)
    ensures Applied(root, desired, ownership) == root - {ENV}
  {
    assert OwnedFields(desired, ownership) == map[];
    assert root[ENV].fields - OwnedKeys(ownership) == map[];
  }

  /** Cutting the last member out leaves the members before it. */
  lemma CutAfterMembers(b: Octets, open: nat, before: Members, p: nat, end: nat, close: nat)
    requires open < p < end <= close < |b| && b[open] == OPEN_BRACE && b[close] == CLOSE_BRACE && SkipWhite(b, 0) == open
    requires Reaches(b, open + 1, before, p)
    requires SkipWhite(b, end) == close && SkipWhite(b, close + 1) == |b|
    ensures ParseDocument(b[..p] + b[end..]) == Some(Object(FromMembers(before)))
  {
    hide ParseDocument, ParseMember, ParseMembers, ParseObject, FromMembers, Reaches, SkipWhite;
    var c := b[..p] + b[end..];
    CutPieces(b, p, end);
    TailRead(b, end, close, c, p);
    ReachesStable(b, c, open + 1, before, p);
    var shut := p + (close - end);
    ReachesParsed(c, open + 1, before, shut);
    ObjectFromMembers(c, open + 1, before, shut + 1);
    SkipWhiteIs(c, 0, open);
    DocumentIs(c, open, FromMembers(before), shut + 1);
  }

  lemma CutPieces(b: Octets, p: nat, end: nat)
    requires p < end <= |b|
    ensures var c := b[..p] + b[end..]; p <= |c| && c[p..] == b[end..] && Agree(b, c, 0, p)
  {}

  lemma EnvMemberBytes(b: Octets, p: nat)
    requires StartsAt(b, p, ENV_MEMBER)
    ensures p + 7 <= |b| && b[p] == COMMA && b[p + 1] == QUOTE && b[p + 2] == 0x65 && b[p + 3] == 0x6E
    ensures b[p + 4] == 0x76 && b[p + 5] == QUOTE && b[p + 6] == COLON
  {
    var s := b[p..p + 7];
    assert s[0] == b[p] && s[1] == b[p + 1] && s[2] == b[p + 2] && s[3] == b[p + 3] && s[4] == b[p + 4]
           && s[5] == b[p + 5] && s[6] == b[p + 6];
  }

  lemma EnvValueStartIs(b: Octets, p: nat)
    requires StartsAt(b, p, ENV_MEMBER)
    ensures p + 7 <= |b| && EnvValueStart(b, p + 1) == Some(SkipAsciiWhite(b, p + 7))
  {
    EnvMemberBytes(b, p);
    assert b[p + 1..p + 6] == b[p..p + 7][1..6] == ENV_MEMBER[1..6] == [QUOTE] + ENV + [QUOTE];
    SkipAsciiWhiteIs(b, p + 6, p + 6);
  }

  /** What a successful removal found, when other members stand in the root object. */
  lemma RemovalFound(b: Octets, c: Octets) returns (p: nat, end: nat)
    requires RemoveManagedEnv(b, false) == Some(c)
    ensures RootBounds(b).Some? && EnvTail(b, p, RootBounds(b).value.1) && RootBounds(b).value.0 < p
    ensures end == ParseValue(b, SkipAsciiWhite(b, p + 7)).value.1 <= |b| && c == b[..p] + b[end..]
  {
    hide ParseValue, StartsAt, EnvValueStart, FindLast;
    var (open, close) := RootBounds(b).value;
    p := FindLast(b, ENV_MEMBER, open + 1, close).value;
    EnvMemberBytes(b, p);
    EnvValueStartIs(b, p);
    end := ParseValue(b, SkipAsciiWhite(b, p + 7)).value.1;
  }

  lemma RemovalLeavesRest(b: Octets, root: Root, c: Octets) returns (before: Members, w: Value)
    requires ParseDocument(b) == Some(Object(root)) && RemoveManagedEnv(b, false) == Some(c)
    ensures RootBounds(b).Some? && RootMemberList(b) == before + [(ENV, w)]
    ensures FromMembers(RootMemberList(b)) == root
    ensures ParseDocument(c) == Some(Object(FromMembers(before)))
  {
    hide ParseDocument, ParseMembers, ParseMember, ParseObject, ParseValue, FromMembers, Reaches, RootBounds, RemoveManagedEnv;
    hide SkipWhite;
    var p, end := RemovalFound(b, c);
    TextBounds(b, root);
    var (open, close) := RootBounds(b).value;
    RootHasMembers(b, open, p, close);
    before := EnvIsLastMember(b, open + 1, p, close);
    w := ParseValue(b, SkipAsciiWhite(b, p + 7)).value.0;
    RemovedBehind(b, open + 1, p, close);
    ReachesBounds(b, open + 1, before, p);
    CutAfterMembers(b, open, before, p, end, close);
  }

  /** The root object holds members, for a comma stands between its braces. */
  lemma RootHasMembers(b: Octets, open: nat, p: nat, close: nat)
    requires open < close < |b| && ParseObject(b, open + 1).Some? && ParseObject(b, open + 1).value.1 == close + 1
    requires EnvTail(b, p, close) && open < p
    ensures ParseMembers(b, open + 1).Some? && ParseMembers(b, open + 1).value.1 == close + 1
    ensures ParseObject(b, open + 1).value.0 == Object(FromMembers(ParseMembers(b, open + 1).value.0))
    ensures b[close] == CLOSE_BRACE
  {
    hide ParseMembers, FromMembers, EnvTail;
    EnvTailComma(b, p, close);
    ObjectEnds(b, open + 1);
  }

  /** Behind the removed value only JSON white space stands before the brace. */
  lemma {:induction false} RemovedBehind(b: Octets, i: nat, p: nat, close: nat)
    requires EnvTail(b, p, close) && b[close] == CLOSE_BRACE
    requires i <= p && i <= |b| && ParseMembers(b, i).Some? && ParseMembers(b, i).value.1 == close + 1
    ensures var end := ParseValue(b, SkipAsciiWhite(b, p + 7)).value.1;
            p < end <= close && SkipWhite(b, end) == close
    decreases |b| - i
  {
    hide EnvTail, ParseMember, ParseValue;
    EnvTailComma(b, p, close);
    EnvTailEnd(b, p, close);
    MemberClear(b, i, p, close);
    var next := ParseMember(b, i).value.2;
    if next < p {
      RemovedBehind(b, next + 1, p, close);
    } else {
      EnvMemberIs(b, p, close);
      EnvMemberIsLast(b, p, close);
    }
  }

  lemma EnvTailEnd(b: Octets, p: nat, close: nat)
    requires EnvTail(b, p, close)
    ensures var end := ParseValue(b, SkipAsciiWhite(b, p + 7)).value.1; p < end <= close
  {}

  /** A root object that holds `env` alone: what its removal found and what it leaves. */
  lemma OnlyEnvRemoved(b: Octets, root: Root, c: Octets)
    requires ParseDocument(b) == Some(Object(root)) && root != map[] && RemoveManagedEnv(b, true) == Some(c)
    ensures RootBounds(b).Some? && CountKey(RootMemberList(b), ENV) == 1
    ensures ParseDocument(c) == Some(Object(map[])) && root.Keys == {ENV}
  {
    hide ParseDocument, ParseMembers, ParseMember, ParseObject, ParseValue, FromMembers, RootBounds, RemoveManagedEnv;
    hide SkipWhite, Reaches, EnvValueStart, SkipAsciiWhite;
    TextBounds(b, root);
    var (open, close) := RootBounds(b).value;
    var members := RootMembers(b, open, close, root);
    var start, end, w := SoleMember(b, open, close, members, c);
    FromSingle((ENV, w));
    assert CountKey([(ENV, w)], ENV) == 1 by {
      assert [(ENV, w)][..0] == [];
    }
    CutPieces(b, start, end);
    TailRead(b, end, close, c, start);
    var shut := start + (close - end);
    SkipWhiteIs(c, open + 1, shut);
    EmptyObjectRead(c, open + 1, shut);
    SkipWhiteIs(c, 0, open);
    DocumentIs(c, open, map[], shut + 1);
  }

  lemma EmptyObjectRead(c: Octets, i: nat, shut: nat)
    requires i <= shut < |c| && SkipWhite(c, i) == shut && c[shut] == CLOSE_BRACE
    ensures ParseObject(c, i) == Some((Object(map[]), shut + 1))
  {}

  lemma SoleMember(b: Octets, open: nat, close: nat, members: Members, c: Octets) returns (start: nat, end: nat, w: Value)
    requires RootBounds(b) == Some((open, close)) && RemoveManagedEnv(b, true) == Some(c)
    requires open + 1 <= |b| && ParseMembers(b, open + 1) == Some((members, close + 1))
    ensures open < start < end <= close && c == b[..start] + b[end..] && members == [(ENV, w)]
    ensures forall k :: open + 1 <= k < start ==> IsWhite(b[k])
    ensures SkipWhite(b, end) == close
  {
    hide ParseMember, ParseValue, EnvValueStart, RootBounds, FromMembers;
    start := SkipAsciiWhite(b, open + 1);
    var value := EnvValueStart(b, start).value;
    w := ParseValue(b, value).value.0;
    end := ParseValue(b, value).value.1;
    FirstMemberIs(b, open + 1, start, value);
    assert SkipWhite(b, end) >= close;
  }

  lemma EnvValueStartMeans(b: Octets, start: nat, value: nat)
    requires EnvValueStart(b, start) == Some(value)
    ensures start + 5 <= |b| && b[start] == QUOTE && ParseString(b, start + 1) == Some((ENV, start + 5))
    ensures var colon := SkipAsciiWhite(b, start + 5);
            colon < |b| && b[colon] == COLON && value == SkipAsciiWhite(b, colon + 1)
  {
    hide ParseString, SkipAsciiWhite;
    EnvQuotedText(b, start);
  }

  /** `"env"` at the first byte that is not white, read as a key. */
  lemma FirstKeyIs(b: Octets, i: nat, start: nat, value: nat)
    requires i <= |b| && ParseKey(b, i).Some? && start == SkipAsciiWhite(b, i)
    requires EnvValueStart(b, start) == Some(value)
    ensures SkipWhite(b, i) == start
    ensures ParseKey(b, i).value.0 == ENV && start + 6 <= ParseKey(b, i).value.1 <= |b|
    ensures value == SkipAsciiWhite(b, ParseKey(b, i).value.1)
  {
    hide ParseString, SkipAsciiWhite, SkipWhite, EnvValueStart;
    var s := SkipWhite(b, i);
    SkipAsciiWhiteIs(b, i, s);
    EnvValueStartMeans(b, s, value);
    SkipAsciiWhiteIs(b, s + 5, SkipWhite(b, s + 5));
  }

  lemma EnvQuotedText(b: Octets, s: nat)
    requires s + 5 <= |b| && b[s..s + 5] == [QUOTE] + ENV + [QUOTE]
    ensures b[s] == QUOTE && ParseString(b, s + 1) == Some((ENV, s + 5))
  {
    hide ParseString, PrintString, Occurs;
    EnvKeyText();
    assert b[s] == b[s..s + 5][0];
    assert b[s + 1..s + 1 + 4] == b[s..s + 5][1..5] == PrintString(ENV);
    OccursSlice(b, s + 1, PrintString(ENV));
    StringPrinted(ENV, b, s + 1);
  }

  /** The first member, found by its exact bytes, is what the parser reads there. */
  lemma FirstMemberIs(b: Octets, i: nat, start: nat, value: nat)
    requires i <= |b| && ParseMember(b, i).Some? && start == SkipAsciiWhite(b, i)
    requires EnvValueStart(b, start) == Some(value)
    ensures ParseValue(b, value).Some?
    ensures var (w, end) := ParseValue(b, value).value; ParseMember(b, i) == Some((ENV, w, SkipWhite(b, end)))
    ensures SkipWhite(b, i) == start && start < value
  {
    hide ParseAt, ParseKey, EnvValueStart;
    FirstKeyIs(b, i, start, value);
    var after := ParseKey(b, i).value.1;
    var t := SkipWhite(b, after);
    FormFeedStartsNothing(b, t);
    SkipAsciiWhiteIs(b, after, t);
    SkipWhiteIs(b, t, t);
  }

  /**
    When the byte removal applies, the text it leaves means what the tree edit produces exactly
    when `env` occurs once among the root members.
  */
  lemma RemoveMeansApply(b: Octets, root: Root, desired: Owned, ownership: Ownership, c: Octets)
    requires ParseDocument(b) == Some(Object(root)) && ENV in root && Accepted(root)
    requires ReversibleEdit(b, root, desired, ownership) == Some(c)
    ensures RootBounds(b).Some?
    ensures ParseDocument(c) == Some(Object(Applied(root, desired, ownership)))
            <==> CountKey(RootMemberList(b), ENV) == 1
  {
    hide ParseDocument, RootBounds, RemoveManagedEnv, FromMembers, RootMemberList, Applied;
    AppliedNothing(root, desired, ownership);
    if |root| == 1 {
      OnlyEnvRemoved(b, root, c);
      assert root - {ENV} == map[];
    } else {
      var before, w := RemovalLeavesRest(b, root, c);
      FromAppended(before, (ENV, w));
      CountedKey(before, ENV);
      assert (before + [(ENV, w)])[..|before|] == before;
      if ENV !in FromMembers(before) {
        assert FromMembers(before)[ENV := w] - {ENV} == FromMembers(before);
      }
    }
  }
}
