/**
  The byte-level edit of a Claude settings file: when the document has no `env`, the managed `env`
  is inserted as a member and every other byte stays; removing that member again gives the
  original bytes back. Both edits mean what `Applied` means on the parsed document.
*/
module ClaudeEnvEdit {
  import opened Bytes
  import opened Json
  import opened JsonStability
  import opened JsonPrinter
  import opened ClaudeDocument

  /** The member text `,"env":`. */
  const ENV_MEMBER: Octets := [COMMA, QUOTE, 0x65, 0x6E, 0x76, QUOTE, COLON]

  /** ASCII white space, which unlike JSON's includes the form feed. */
  predicate IsAsciiWhite(c: byte) { IsWhite(c) || c == 0x0C }

  function SkipAsciiWhite(b: Octets, i: nat): (r: nat)
    requires i <= |b|
    ensures i <= r <= |b|
    ensures r < |b| ==> !IsAsciiWhite(b[r])
    ensures forall k :: i <= k < r ==> IsAsciiWhite(b[k])
    decreases |b| - i
  {
    if i < |b| && IsAsciiWhite(b[i]) then SkipAsciiWhite(b, i + 1) else i
  }

  /** One more than the last position below `i` that is not ASCII white; 0 when all are white. */
  function TrimEnd(b: Octets, i: nat): (r: nat)
    requires i <= |b|
    ensures r <= i
    ensures 0 < r ==> !IsAsciiWhite(b[r - 1])
    ensures forall k :: r <= k < i ==> IsAsciiWhite(b[k])
  {
    if 0 < i && IsAsciiWhite(b[i - 1]) then TrimEnd(b, i - 1) else i
  }

  /** Positions of the root object's braces, if the text starts and ends with them. */
  function RootBounds(b: Octets): (r: Option<(nat, nat)>)
    ensures r.Some? ==>
              && r.value.0 <= r.value.1 < |b|
              && b[r.value.0] == OPEN_BRACE && b[r.value.1] == CLOSE_BRACE
  {
    var open := SkipAsciiWhite(b, 0);
    if open == |b| then None
    else
      var close := TrimEnd(b, |b|) - 1;
      if b[open] == OPEN_BRACE && b[close] == CLOSE_BRACE then Some((open, close)) else None
  }

  /** Start of the value of a member `"env" :` whose opening quote is at `start`. */
  function EnvValueStart(b: Octets, start: nat): (r: Option<nat>)
    ensures r.Some? ==> start + 6 <= r.value <= |b|
  {
    if start + 5 <= |b| && b[start..start + 5] == [QUOTE] + ENV + [QUOTE] then
      var colon := SkipAsciiWhite(b, start + 5);
      if colon < |b| && b[colon] == COLON then Some(SkipAsciiWhite(b, colon + 1)) else None
    else None
  }

  /** The last position below `i` where `needle` stands in `b`, not before `from` and ending by `upto`. */
  function FindLast(b: Octets, needle: Octets, from: nat, upto: nat): (r: Option<nat>)
    requires upto <= |b|
    ensures r.Some? ==> from <= r.value && r.value + |needle| <= upto && StartsAt(b, r.value, needle)
    ensures forall k ::
              from <= k && k + |needle| <= upto && StartsAt(b, k, needle) ==> r.Some? && k <= r.value
    decreases upto
  {
    if upto < from + |needle| then None
    else if StartsAt(b, upto - |needle|, needle) then Some(upto - |needle|)
    else if upto == 0 then None
    else FindLast(b, needle, from, upto - 1)
  }

  /** Where the managed member starts and where its value starts. */
  function ManagedMember(b: Octets, open: nat, close: nat, rootOnlyEnv: bool): (r: Option<(nat, nat)>)
    requires open <= close < |b|
    ensures r.Some? ==> r.value.0 < r.value.1 <= |b|
  {
    if rootOnlyEnv then
      var start := SkipAsciiWhite(b, open + 1);
      match EnvValueStart(b, start)
      case None => None
      case Some(value) => Some((start, value))
    else
      match FindLast(b, ENV_MEMBER, open + 1, close)
      case None => None
      case Some(start) =>
        match EnvValueStart(b, start + 1)
        case None => None
        case Some(value) => Some((start, value))
  }

  /** `insert_managed_env` as a function of the text. */
  function Inserted(b: Octets, open: nat, close: nat, rootIsEmpty: bool, env: Octets): Octets
    requires open <= close < |b|
  {
    var member := (if rootIsEmpty then ENV_MEMBER[1..] else ENV_MEMBER) + env;
    var at := if rootIsEmpty then open + 1 else close;
    b[..at] + member + b[at..]
  }

  /** The compact text of the `env` object an owned state asks for. */
  function EnvText(owned: Owned, ownership: Ownership): Octets {
    Print(Object(OwnedFields(owned, ownership)), Compact, 0)
  }

  function InsertManagedEnv(b: Octets, rootIsEmpty: bool, owned: Owned, ownership: Ownership): Option<Octets> {
    match RootBounds(b)
    case None => None
    case Some((open, close)) =>
      if HasValues(owned, ownership)
      then Some(Inserted(b, open, close, rootIsEmpty, EnvText(owned, ownership))) else None
  }

  /** `remove_inserted_managed_env` as a function of the text. */
  function RemoveManagedEnv(b: Octets, rootOnlyEnv: bool): Option<Octets> {
    match RootBounds(b)
    case None => None
    case Some((open, close)) =>
      match ManagedMember(b, open, close, rootOnlyEnv)
      case None => None
      case Some((start, value)) =>
        match ParseValue(b, value)
        case None => None
        case Some((_, end)) =>
          if end <= close && SkipAsciiWhite(b, end) >= close then Some(b[..start] + b[end..]) else None
  }

  /** `reversible_env_edit`: the edited text, or nothing when the document must be printed afresh. */
  function ReversibleEdit(b: Octets, root: Root, desired: Owned, ownership: Ownership): Option<Octets> {
    if ENV !in root then
      if HasValues(desired, ownership) then InsertManagedEnv(b, root == map[], desired, ownership) else None
    else if root[ENV].Object? && !HasValues(desired, ownership)
            && root[ENV].fields != map[] && root[ENV].fields.Keys <= OwnedKeys(ownership)
    then RemoveManagedEnv(b, |root| == 1)
    else None
  }

  // ---- the loops

  method SkipJsonWhitespace(b: Octets, start: nat) returns (cursor: nat)
    requires start <= |b|
    ensures cursor == SkipAsciiWhite(b, start)
  {
    cursor := start;
    while cursor < |b| && IsAsciiWhite(b[cursor])
      invariant start <= cursor <= |b|
      invariant SkipAsciiWhite(b, start) == SkipAsciiWhite(b, cursor)
    {
      cursor := cursor + 1;
    }
  }

  /** `exact_env_value_start`, advancing a cursor over quote, key, quote, colon. */
  method ExactEnvValueStart(b: Octets, start: nat) returns (r: Option<nat>)
    ensures r == EnvValueStart(b, start)
  {
    var cursor := start;
    if start + 5 <= |b| {
      assert b[start..start + 5] == [b[start]] + b[start + 1..start + 4] + [b[start + 4]];
      assert b[start..start + 5][1..4] == b[start + 1..start + 4];
      assert ([QUOTE] + ENV + [QUOTE])[1..4] == ENV;
    }
    if cursor >= |b| || b[cursor] != QUOTE {
      return None;
    }
    cursor := cursor + 1;
    if cursor + 3 > |b| || b[cursor..cursor + 3] != ENV {
      return None;
    }
    cursor := cursor + 3;
    if cursor >= |b| || b[cursor] != QUOTE {
      return None;
    }
    cursor := SkipJsonWhitespace(b, cursor + 1);
    if cursor >= |b| || b[cursor] != COLON {
      return None;
    }
    cursor := SkipJsonWhitespace(b, cursor + 1);
    return Some(cursor);
  }
}
