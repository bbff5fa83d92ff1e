/** A value's parse depends only on its own bytes: the text after it may be rewritten. */
module JsonStability {
  import opened Bytes
  import opened Json

  ghost predicate Agree(b: Octets, c: Octets, from: nat, upto: nat) {
    upto <= |b| && upto <= |c| && forall k :: from <= k < upto ==> b[k] == c[k]
  }

  /** Position `i` of `c` does not continue a number that ends there. */
  ghost predicate EndsNumber(c: Octets, i: nat) {
    i <= |c| && (i < |c| ==> !IsNumberByte(c[i]))
  }

  /** Position `i` of `c` does not continue white space that ends there. */
  ghost predicate EndsWhite(c: Octets, i: nat) {
    i <= |c| && (i < |c| ==> !IsWhite(c[i]))
  }

  lemma {:induction false} SkipWhiteIs(c: Octets, i: nat, r: nat)
    requires i <= r && EndsWhite(c, r)
    requires forall k :: i <= k < r ==> IsWhite(c[k])
    ensures SkipWhite(c, i) == r
    decreases r - i
  {
    if i < r {
      SkipWhiteIs(c, i + 1, r);
    }
  }

  lemma {:induction false} NumberEndIs(c: Octets, i: nat, r: nat)
    requires i <= r && EndsNumber(c, r)
    requires forall k :: i <= k < r ==> IsNumberByte(c[k])
    ensures NumberEnd(c, i) == r
    decreases r - i
  {
    if i < r {
      NumberEndIs(c, i + 1, r);
    }
  }

  lemma {:induction false} StringStable(b: Octets, c: Octets, i: nat)
    requires i <= |b| && ParseString(b, i).Some?
    requires Agree(b, c, i, ParseString(b, i).value.1)
    ensures ParseString(c, i) == ParseString(b, i)
    decreases |b| - i
  {
    if b[i] != QUOTE {
      CharStable(b, c, i);
      StringStable(b, c, ParseChar(b, i).value.1);
    }
  }

  lemma CharStable(b: Octets, c: Octets, i: nat)
    requires i < |b| && ParseChar(b, i).Some?
    requires Agree(b, c, i, ParseChar(b, i).value.1)
    ensures ParseChar(c, i) == ParseChar(b, i)
  {}

  lemma {:induction false} ValueStable(b: Octets, c: Octets, i: nat)
    requires i <= |b| && ParseValue(b, i).Some?
    requires Agree(b, c, i, ParseValue(b, i).value.1)
    requires EndsNumber(c, ParseValue(b, i).value.1)
    ensures ParseValue(c, i) == ParseValue(b, i)
    decreases |b| - i, 1
  {
    var s := SkipWhite(b, i);
    SkipWhiteIs(c, i, s);
    AtStable(b, c, s);
  }

  lemma {:induction false} AtStable(b: Octets, c: Octets, s: nat)
    requires s < |b| && ParseAt(b, s).Some?
    requires Agree(b, c, s, ParseAt(b, s).value.1)
    requires EndsNumber(c, ParseAt(b, s).value.1)
    ensures s < |c| && ParseAt(c, s) == ParseAt(b, s)
    decreases |b| - s, 0
  {
    hide ParseString, ParseWord, ParseObject, ParseArray;
    if b[s] == OPEN_BRACE {
      ObjectStable(b, c, s + 1);
    } else if b[s] == OPEN_BRACKET {
      ArrayStable(b, c, s + 1);
    } else if b[s] == QUOTE {
      StringStable(b, c, s + 1);
    } else {
      WordStable(b, c, s);
    }
  }

  lemma {:induction false} ObjectStable(b: Octets, c: Octets, i: nat)
    requires i <= |b| && ParseObject(b, i).Some?
    requires Agree(b, c, i, ParseObject(b, i).value.1)
    ensures ParseObject(c, i) == ParseObject(b, i)
    decreases |b| - i, 4
  {
    hide FromMembers;
    var t := SkipWhite(b, i);
    if !(t < |b| && b[t] == CLOSE_BRACE) {
      MembersStable(b, c, i);
    }
    SkipWhiteIs(c, i, t);
  }

  lemma {:induction false} ArrayStable(b: Octets, c: Octets, i: nat)
    requires i <= |b| && ParseArray(b, i).Some?
    requires Agree(b, c, i, ParseArray(b, i).value.1)
    ensures ParseArray(c, i) == ParseArray(b, i)
    decreases |b| - i, 4
  {
    var t := SkipWhite(b, i);
    if !(t < |b| && b[t] == CLOSE_BRACKET) {
      ItemsStable(b, c, i);
    }
    SkipWhiteIs(c, i, t);
  }

  lemma WordStable(b: Octets, c: Octets, s: nat)
    requires s < |b| && ParseWord(b, s).Some?
    requires Agree(b, c, s, ParseWord(b, s).value.1)
    requires EndsNumber(c, ParseWord(b, s).value.1)
    ensures s < |c| && ParseWord(c, s) == ParseWord(b, s)
  {
    hide IsNumber, DigitsEnd;
    var end := ParseWord(b, s).value.1;
    assert b[s..end] == c[s..end];
    if StartsAt(b, s, TRUE) || StartsAt(b, s, FALSE) || StartsAt(b, s, NULL) {
      assert b[s] == c[s] && b[s + 1] == c[s + 1];
    } else {
      NumberEndIs(c, s, end);
      assert IsNumberByte(c[s]);
    }
  }

  lemma {:induction false} KeyStable(b: Octets, c: Octets, i: nat)
    requires i <= |b| && ParseKey(b, i).Some?
    requires Agree(b, c, i, ParseKey(b, i).value.1)
    ensures ParseKey(c, i) == ParseKey(b, i)
  {
    hide ParseString;
    var s := SkipWhite(b, i);
    SkipWhiteIs(c, i, s);
    StringStable(b, c, s + 1);
    var after := ParseString(b, s + 1).value.1;
    SkipWhiteIs(c, after, SkipWhite(b, after));
  }

  lemma {:induction false} MemberStable(b: Octets, c: Octets, i: nat)
    requires i <= |b| && ParseMember(b, i).Some?
    requires Agree(b, c, i, ParseMember(b, i).value.2)
    requires EndsWhite(c, ParseMember(b, i).value.2) && EndsNumber(c, ParseMember(b, i).value.2)
    ensures ParseMember(c, i) == ParseMember(b, i)
    decreases |b| - i, 2
  {
    hide ParseValue, ParseKey;
    KeyStable(b, c, i);
    var start := ParseKey(b, i).value.1;
    var end := ParseValue(b, start).value.1;
    var next := SkipWhite(b, end);
    assert EndsNumber(c, end);
    ValueStable(b, c, start);
    SkipWhiteIs(c, end, next);
  }

  lemma {:induction false} MembersStable(b: Octets, c: Octets, i: nat)
    requires i <= |b| && ParseMembers(b, i).Some?
    requires Agree(b, c, i, ParseMembers(b, i).value.1)
    ensures ParseMembers(c, i) == ParseMembers(b, i)
    decreases |b| - i, 3
  {
    hide ParseMember;
    var next := ParseMember(b, i).value.2;
    assert b[next] == c[next];
    MemberStable(b, c, i);
    if b[next] == COMMA {
      MembersStable(b, c, next + 1);
    }
  }

  lemma {:induction false} ItemsStable(b: Octets, c: Octets, i: nat)
    requires i <= |b| && ParseItems(b, i).Some?
    requires Agree(b, c, i, ParseItems(b, i).value.1)
    ensures ParseItems(c, i) == ParseItems(b, i)
    decreases |b| - i, 3
  {
    hide ParseValue;
    var end := ParseValue(b, i).value.1;
    var next := SkipWhite(b, end);
    assert b[next] == c[next] && b[end] == c[end];
    ValueStable(b, c, i);
    SkipWhiteIs(c, end, next);
    if b[next] == COMMA {
      ItemsStable(b, c, next + 1);
    }
  }
}
