/** The members of an object as a chain of positions, so that the chain can be cut or extended. */
module JsonMembers {
  import opened Bytes
  import opened Json
  import opened JsonStability

  /**
    Reading members from `i` yields exactly `members`, and the first position behind the last
    one that is not white is `p`. Whatever stands at `p` decides what follows.
  */
  ghost predicate Reaches(b: Octets, i: nat, members: Members, p: nat)
    decreases |members|
  {
    && i <= |b| && members != []
    && match ParseMember(b, i)
       case None => false
       case Some((key, value, next)) =>
         && members[0] == (key, value)
         && if |members| == 1 then next == p
            else next < |b| && b[next] == COMMA && Reaches(b, next + 1, members[1..], p)
  }

  lemma {:induction false} ReachesBounds(b: Octets, i: nat, members: Members, p: nat)
    requires Reaches(b, i, members, p)
    ensures i < p <= |b|
    decreases |members|
  {
    hide ParseMember;
    if |members| > 1 {
      ReachesBounds(b, ParseMember(b, i).value.2 + 1, members[1..], p);
    }
  }

  lemma {:induction false} ParsedReaches(b: Octets, i: nat)
    requires i <= |b| && ParseMembers(b, i).Some?
    ensures var (members, end) := ParseMembers(b, i).value;
            end - 1 < |b| && b[end - 1] == CLOSE_BRACE && Reaches(b, i, members, end - 1)
    decreases |b| - i
  {
    hide ParseMember;
    var (members, end) := ParseMembers(b, i).value;
    var next := ParseMember(b, i).value.2;
    if b[next] == COMMA {
      ParsedReaches(b, next + 1);
      assert members[1..] == ParseMembers(b, next + 1).value.0;
      assert |members| > 1;
    }
  }

  lemma {:induction false} ReachesParsed(b: Octets, i: nat, members: Members, p: nat)
    requires Reaches(b, i, members, p) && p < |b| && b[p] == CLOSE_BRACE
    ensures ParseMembers(b, i) == Some((members, p + 1))
    decreases |members|
  {
    hide ParseMember;
    if |members| > 1 {
      ReachesParsed(b, ParseMember(b, i).value.2 + 1, members[1..], p);
      assert members == [members[0]] + members[1..];
    } else {
      assert members == [members[0]];
    }
  }

  /** One more member behind a comma. */
  lemma {:induction false} ReachesAppend(b: Octets, i: nat, members: Members, p: nat, member: (Octets, Value), q: nat)
    requires Reaches(b, i, members, p) && p < |b| && b[p] == COMMA
    requires ParseMember(b, p + 1) == Some((member.0, member.1, q))
    ensures Reaches(b, i, members + [member], q)
    decreases |members|
  {
    hide ParseMember;
    if |members| > 1 {
      ReachesAppend(b, ParseMember(b, i).value.2 + 1, members[1..], p, member, q);
      assert (members + [member])[1..] == members[1..] + [member];
    } else {
      assert (members + [member])[1..] == [member];
      assert Reaches(b, p + 1, [member], q);
    }
  }

  /** The chain only depends on the bytes before `p`; white space there is skipped. */
  lemma {:induction false} ReachesStable(b: Octets, c: Octets, i: nat, members: Members, p: nat)
    requires Reaches(b, i, members, p)
    requires Agree(b, c, i, p) && EndsNumber(c, p)
    ensures Reaches(c, i, members, SkipWhite(c, p))
    decreases |members|
  {
    hide ParseMember;
    ReachesBounds(b, i, members, p);
    if |members| > 1 {
      var next := ParseMember(b, i).value.2;
      ReachesBounds(b, next + 1, members[1..], p);
      assert b[next] == c[next];
      MemberStable(b, c, i);
      ReachesStable(b, c, next + 1, members[1..], p);
    } else {
      LastMemberStable(b, c, i);
    }
  }

  /** As `MemberStable`, with the white space behind the member rewritten too. */
  lemma {:induction false} LastMemberStable(b: Octets, c: Octets, i: nat)
    requires i <= |b| && ParseMember(b, i).Some?
    requires Agree(b, c, i, ParseMember(b, i).value.2) && EndsNumber(c, ParseMember(b, i).value.2)
    ensures ParseMember(c, i)
            == Some((ParseMember(b, i).value.0, ParseMember(b, i).value.1, SkipWhite(c, ParseMember(b, i).value.2)))
  {
    hide ParseKey, ParseValue;
    var next := ParseMember(b, i).value.2;
    KeyStable(b, c, i);
    var start := ParseKey(b, i).value.1;
    var end := ParseValue(b, start).value.1;
    assert EndsNumber(c, end);
    ValueStable(b, c, start);
    SkipWhiteIs(c, end, SkipWhite(c, next));
  }
}
