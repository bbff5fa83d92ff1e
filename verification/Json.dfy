/**
  JSON text as the service reads it: a value, optional white space around every token, and the
  last of several equal keys winning. Positions index the whole text, so a value can be located
  inside it and the text edited around it.
*/
module Json {
  import opened Bytes

  datatype Value =
    | Null
    | Bool(truth: bool)
    | Number(literal: Octets)
    | Str(text: Octets)
    | Array(items: seq<Value>)
    | Object(fields: map<Octets, Value>)

  type Members = seq<(Octets, Value)>

  const QUOTE: byte := 0x22
  const BACKSLASH: byte := 0x5C
  const COMMA: byte := 0x2C
  const COLON: byte := 0x3A
  const OPEN_BRACE: byte := 0x7B
  const CLOSE_BRACE: byte := 0x7D
  const OPEN_BRACKET: byte := 0x5B
  const CLOSE_BRACKET: byte := 0x5D

  predicate IsWhite(c: byte) { c == 0x20 || c == 0x09 || c == 0x0A || c == 0x0D }

  /** A byte that may occur in a number: digits, sign, point, exponent. */
  predicate IsNumberByte(c: byte) {
    IsDigit(c) || c == 0x2D || c == 0x2B || c == 0x2E || c == 0x65 || c == 0x45
  }

  function SkipWhite(b: Octets, i: nat): (r: nat)
    requires i <= |b|
    ensures i <= r <= |b|
    ensures r < |b| ==> !IsWhite(b[r])
    ensures forall k :: i <= k < r ==> IsWhite(b[k])
    decreases |b| - i
  {
    if i < |b| && IsWhite(b[i]) then SkipWhite(b, i + 1) else i
  }

  // ---- numbers

  function NumberEnd(b: Octets, i: nat): (r: nat)
    requires i <= |b|
    ensures i <= r <= |b|
    ensures r < |b| ==> !IsNumberByte(b[r])
    ensures forall k :: i <= k < r ==> IsNumberByte(b[k])
    decreases |b| - i
  {
    if i < |b| && IsNumberByte(b[i]) then NumberEnd(b, i + 1) else i
  }

  /** `-`? integer fraction? exponent?, with no superfluous leading zero. */
  predicate IsNumber(s: Octets) {
    var start := if |s| > 0 && s[0] == 0x2D then 1 else 0;
    var whole := DigitsEnd(s, start);
    && start < whole
    && (s[start] == 0x30 ==> whole == start + 1)
    && var point := if whole < |s| && s[whole] == 0x2E then DigitsEnd(s, whole + 1) else whole;
    && (point == whole || whole + 1 < point)
    && (whole < |s| && s[whole] == 0x2E ==> whole + 1 < point)
    && (point == |s|
        || ((s[point] == 0x65 || s[point] == 0x45)
            && var sign := if point + 1 < |s| && (s[point + 1] == 0x2B || s[point + 1] == 0x2D) then point + 2 else point + 1;
            sign < |s| && DigitsEnd(s, sign) == |s|))
  }

  // ---- strings

  function HexValue(c: byte): Option<nat> {
    if IsDigit(c) then Some(c as int - 0x30)
    else if 0x41 <= c <= 0x46 then Some(c as int - 0x37)
    else if 0x61 <= c <= 0x66 then Some(c as int - 0x57)
    else None
  }

  /** Four hexadecimal digits starting at `i`. */
  function Hex4(b: Octets, i: nat): (r: Option<nat>)
    requires i + 4 <= |b|
    ensures r.Some? ==> r.value < 0x10000
  {
    var h0, h1, h2, h3 := HexValue(b[i]), HexValue(b[i + 1]), HexValue(b[i + 2]), HexValue(b[i + 3]);
    if h0.Some? && h1.Some? && h2.Some? && h3.Some?
    then Some(((h0.value * 16 + h1.value) * 16 + h2.value) * 16 + h3.value) else None
  }

  /** The UTF-8 encoding of one scalar value. */
  function Utf8(code: nat): Octets
    requires code < 0x110000
  {
    if code < 0x80 then [code as byte]
    else if code < 0x800 then [(0xC0 + code / 0x40) as byte, (0x80 + code % 0x40) as byte]
    else if code < 0x10000 then
      [(0xE0 + code / 0x1000) as byte, (0x80 + code / 0x40 % 0x40) as byte, (0x80 + code % 0x40) as byte]
    else
      [(0xF0 + code / 0x40000) as byte, (0x80 + code / 0x1000 % 0x40) as byte,
       (0x80 + code / 0x40 % 0x40) as byte, (0x80 + code % 0x40) as byte]
  }

  /** The escape whose backslash is at `i`: the bytes it stands for and the position after it. */
  function ParseEscape(b: Octets, i: nat): (r: Option<(Octets, nat)>)
    requires i < |b| && b[i] == BACKSLASH
    ensures r.Some? ==> i + 2 <= r.value.1 <= |b|
  {
    if i + 1 == |b| then None
    else if b[i + 1] == 0x62 then Some(([0x08], i + 2))
    else if b[i + 1] == 0x66 then Some(([0x0C], i + 2))
    else if b[i + 1] == 0x6E then Some(([0x0A], i + 2))
    else if b[i + 1] == 0x72 then Some(([0x0D], i + 2))
    else if b[i + 1] == 0x74 then Some(([0x09], i + 2))
    else if b[i + 1] == QUOTE || b[i + 1] == BACKSLASH || b[i + 1] == 0x2F then Some(([b[i + 1]], i + 2))
    else if b[i + 1] == 0x75 && i + 6 <= |b| then
      match Hex4(b, i + 2)
      case None => None
      case Some(unit) =>
        if 0xD800 <= unit < 0xDC00 then
          if i + 12 <= |b| && b[i + 6] == BACKSLASH && b[i + 7] == 0x75 then
            match Hex4(b, i + 8)
            case Some(low) =>
              if 0xDC00 <= low < 0xE000
              then Some((Utf8(0x10000 + (unit - 0xD800) * 0x400 + (low - 0xDC00)), i + 12)) else None
            case None => None
          else None
        else if 0xDC00 <= unit < 0xE000 then None
        else Some((Utf8(unit), i + 6))
    else None
  }

  /** One character of string contents, escaped or not. */
  function ParseChar(b: Octets, i: nat): (r: Option<(Octets, nat)>)
    requires i < |b|
    ensures r.Some? ==> i < r.value.1 <= |b|
  {
    if b[i] == BACKSLASH then ParseEscape(b, i)
    else if b[i] < 0x20 then None
    else Some(([b[i]], i + 1))
  }

  /** String contents starting after the opening quote at `i`, and the position after the closing one. */
  function ParseString(b: Octets, i: nat): (r: Option<(Octets, nat)>)
    requires i <= |b|
    ensures r.Some? ==> i < r.value.1 <= |b|
    decreases |b| - i
  {
    if i == |b| then None
    else if b[i] == QUOTE then Some(([], i + 1))
    else
      match ParseChar(b, i)
      case None => None
      case Some((head, next)) =>
        match ParseString(b, next)
        case None => None
        case Some((rest, end)) => Some((head + rest, end))
  }

  // ---- values

  predicate StartsAt(b: Octets, i: nat, word: Octets) {
    i + |word| <= |b| && b[i..i + |word|] == word
  }

  const TRUE: Octets := [0x74, 0x72, 0x75, 0x65]
  const FALSE: Octets := [0x66, 0x61, 0x6C, 0x73, 0x65]
  const NULL: Octets := [0x6E, 0x75, 0x6C, 0x6C]

  /** White space and one value from `i`; the position returned is just after the value. */
  function ParseValue(b: Octets, i: nat): (r: Option<(Value, nat)>)
    requires i <= |b|
    ensures r.Some? ==> i < r.value.1 <= |b|
    decreases |b| - i, 1
  {
    var s := SkipWhite(b, i);
    if s == |b| then None else ParseAt(b, s)
  }

  /** One value whose first byte is at `s`. */
  function ParseAt(b: Octets, s: nat): (r: Option<(Value, nat)>)
    requires s < |b|
    ensures r.Some? ==> s < r.value.1 <= |b|
    decreases |b| - s, 0
  {
    if b[s] == OPEN_BRACE then ParseObject(b, s + 1)
    else if b[s] == OPEN_BRACKET then ParseArray(b, s + 1)
    else if b[s] == QUOTE then
      match ParseString(b, s + 1)
      case Some((text, end)) => Some((Str(text), end))
      case None => None
    else ParseWord(b, s)
  }

  function ParseWord(b: Octets, s: nat): (r: Option<(Value, nat)>)
    requires s < |b|
    ensures r.Some? ==> s < r.value.1 <= |b|
  {
    if StartsAt(b, s, TRUE) then Some((Bool(true), s + 4))
    else if StartsAt(b, s, FALSE) then Some((Bool(false), s + 5))
    else if StartsAt(b, s, NULL) then Some((Null, s + 4))
    else
      var end := NumberEnd(b, s);
      if s < end && IsNumber(b[s..end]) then Some((Number(b[s..end]), end)) else None
  }

  /** An object from just after its opening brace. */
  function ParseObject(b: Octets, i: nat): (r: Option<(Value, nat)>)
    requires i <= |b|
    ensures r.Some? ==> i < r.value.1 <= |b|
    decreases |b| - i, 4
  {
    var t := SkipWhite(b, i);
    if t < |b| && b[t] == CLOSE_BRACE then Some((Object(map[]), t + 1))
    else
      match ParseMembers(b, i)
      case Some((members, end)) => Some((Object(FromMembers(members)), end))
      case None => None
  }

  /** An array from just after its opening bracket. */
  function ParseArray(b: Octets, i: nat): (r: Option<(Value, nat)>)
    requires i <= |b|
    ensures r.Some? ==> i < r.value.1 <= |b|
    decreases |b| - i, 4
  {
    var t := SkipWhite(b, i);
    if t < |b| && b[t] == CLOSE_BRACKET then Some((Array([]), t + 1))
    else
      match ParseItems(b, i)
      case Some((items, end)) => Some((Array(items), end))
      case None => None
  }

  /** White space, a quoted key, and the colon; the position returned is just after the colon. */
  function ParseKey(b: Octets, i: nat): (r: Option<(Octets, nat)>)
    requires i <= |b|
    ensures r.Some? ==> i < r.value.1 <= |b|
  {
    var s := SkipWhite(b, i);
    if s == |b| || b[s] != QUOTE then None
    else
      match ParseString(b, s + 1)
      case None => None
      case Some((key, after)) =>
        var colon := SkipWhite(b, after);
        if colon == |b| || b[colon] != COLON then None else Some((key, colon + 1))
  }

  /** One `"key": value` from `i`; the last component is the first position after it that is not white. */
  function ParseMember(b: Octets, i: nat): (r: Option<(Octets, Value, nat)>)
    requires i <= |b|
    ensures r.Some? ==> i < r.value.2 <= |b|
    decreases |b| - i, 2
  {
    match ParseKey(b, i)
    case None => None
    case Some((key, start)) =>
      match ParseValue(b, start)
      case None => None
      case Some((value, end)) => Some((key, value, SkipWhite(b, end)))
  }

  /** Members from `i` up to and including the closing brace. */
  function ParseMembers(b: Octets, i: nat): (r: Option<(Members, nat)>)
    requires i <= |b|
    ensures r.Some? ==> i < r.value.1 <= |b|
    decreases |b| - i, 3
  {
    match ParseMember(b, i)
    case None => None
    case Some((key, value, next)) =>
      if next == |b| then None
      else if b[next] == CLOSE_BRACE then Some(([(key, value)], next + 1))
      else if b[next] == COMMA then
        match ParseMembers(b, next + 1)
        case None => None
        case Some((rest, end)) => Some(([(key, value)] + rest, end))
      else None
  }

  /** Array items from `i` up to and including the closing bracket. */
  function ParseItems(b: Octets, i: nat): (r: Option<(seq<Value>, nat)>)
    requires i <= |b|
    ensures r.Some? ==> i < r.value.1 <= |b|
    decreases |b| - i, 2
  {
    match ParseValue(b, i)
    case None => None
    case Some((value, end)) =>
      var next := SkipWhite(b, end);
      if next == |b| then None
      else if b[next] == CLOSE_BRACKET then Some(([value], next + 1))
      else if b[next] == COMMA then
        match ParseItems(b, next + 1)
        case None => None
        case Some((rest, last)) => Some(([value] + rest, last))
      else None
  }

  /** The object a member list denotes: later members replace earlier ones with the same key. */
  function FromMembers(members: Members): map<Octets, Value> {
    if members == [] then map[]
    else
      var last := members[|members| - 1];
      FromMembers(members[..|members| - 1])[last.0 := last.1]
  }

  /** A whole document: one value and nothing but white space after it. */
  function ParseDocument(b: Octets): Option<Value> {
    match ParseValue(b, 0)
    case None => None
    case Some((value, end)) => if SkipWhite(b, end) == |b| then Some(value) else None
  }
}
